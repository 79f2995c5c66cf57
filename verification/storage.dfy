/** The app-private file store behind `openFileInput`/`openFileOutput`,
    reduced to a map from file name to the text the file holds. A name that
    is absent stands for every way opening it can fail (first install, I/O
    error); both surface as a failed `Result` in the source. */
module Storage {
  import opened Wrappers
  import Text

  type Disk = map<string, string>

  /** Why opening a file for reading failed. */
  datatype LoadError = FileUnreadable(filename: string)

  /** Opens a file and splits it the way `useLines` does. */
  function ReadLines(disk: Disk, filename: string): (r: Result<seq<string>, LoadError>)
    ensures r.Success? <==> filename in disk
    ensures r.Success? ==> r.value == Text.Lines(disk[filename])
    ensures r.Failure? ==> r.error == FileUnreadable(filename)
  {
    if filename in disk then Success(Text.Lines(disk[filename]))
    else Failure(FileUnreadable(filename))
  }

  /** `openFileOutput(filename, MODE_PRIVATE)`: creates or truncates the
      file and leaves it holding exactly `text`; no other file changes. */
  function WriteText(disk: Disk, filename: string, text: string): (d: Disk)
    ensures d.Keys == disk.Keys + {filename}
    ensures d[filename] == text
    ensures forall f :: f in disk && f != filename ==> d[f] == disk[f]
  {
    disk[filename := text]
  }
}
