/** The data model of zmc.h, used by the older operation file, the panel
    drawing code and the key loop: an entry is a display name, a size in
    kilobytes and a selection flag; a panel holds up to MAX_FILES entries,
    a cursor, the first visible row, its drive and whether it has the focus. */
module Zmc {
  import opened Common

  datatype FileEntry = FileEntry(name: CString, sizeKb: int, seleccionado: int)

  /** A zero-initialised entry, as in the static `App`. */
  const BLANK: FileEntry := FileEntry([], 0, 0)

  predicate Marked(e: FileEntry) {
    e.seleccionado != 0
  }

  class Panel {
    const files: array<FileEntry>
    var numFiles: int
    var currentIdx: int
    var scrollOffset: int
    var drive: byte
    var active: bool

    ghost predicate Valid()
      reads this
    {
      files.Length == MAX_FILES && 0 <= numFiles <= MAX_FILES
    }

    /** A panel of the static `App` before its first load: everything zero
        except the drive and the focus flag main sets. */
    constructor (drive: byte, active: bool)
      ensures Valid() && fresh(files) && files[..] == seq(MAX_FILES, _ => BLANK)
      ensures this.drive == drive && this.active == active
      ensures numFiles == 0 && currentIdx == 0 && scrollOffset == 0
    {
      files := new FileEntry[MAX_FILES](_ => BLANK);
      numFiles := 0;
      currentIdx := 0;
      scrollOffset := 0;
      this.drive := drive;
      this.active := active;
    }
  }
}
