/** The browser `File` objects the editor holds: a name, a MIME type and a size in bytes. */
module BrowserFile {
  datatype File = File(name: string, mime: string, size: nat)
}
