/** The manifest file on disk, as a mutable object: its current text and
    whether `fs::read_to_string` and `fs::write` on it succeed. */
module Files {

  import opened Common

  class ManifestFile {
    var text: string
    var readable: bool
    var writable: bool

    constructor (text: string, readable: bool, writable: bool)
      ensures this.text == text && this.readable == readable && this.writable == writable
    {
      this.text := text;
      this.readable := readable;
      this.writable := writable;
    }

    /** `fs::read_to_string`: the whole text, or a read error. */
    method Read() returns (r: Result<string, IoError>)
      ensures readable ==> r == Ok(text)
      ensures !readable ==> r == Err(ReadFailed)
    {
      if readable {
        r := Ok(text);
      } else {
        r := Err(ReadFailed);
      }
    }

    /** `fs::write`: replaces the whole text, or fails and leaves it. */
    method Write(contents: string) returns (r: Result<(), IoError>)
      modifies this`text
      ensures writable ==> r == Ok(()) && text == contents
      ensures !writable ==> r == Err(WriteFailed) && text == old(text)
    {
      if writable {
        text := contents;
        r := Ok(());
      } else {
        r := Err(WriteFailed);
      }
    }

    /** The file's permissions change from outside the program, so that a
        later write succeeds or fails independently of an earlier one. */
    method SetWritable(w: bool)
      modifies this`writable
      ensures writable == w
    {
      writable := w;
    }
  }
}
