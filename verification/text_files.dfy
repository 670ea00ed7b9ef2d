/** Whole text files read into a buffer: the string in it ends where the file's text ends. */
module TextFiles {
  import opened Bytes
  import opened CString
  import opened InodeTable
  import opened DirentBlock
  import opened StoreModel
  import opened Paths
  import opened Sessions
  import FileSystem
  import Layout

  // The text of a file, as far as a buffer of n characters shows it.
  ghost function FileText(s: Session, path: Bytes, n: nat): Bytes
    requires ReadReady(s, path) && Resolve(s.tree, s.dir, path) != NO_ENTRY && n > 0
  {
    CStr(ReadPath(s, path, n - 1))
  }

  // Zero padding ends the string where the data ends.
  lemma ReadBack(d: Bytes, size: nat)
    requires NulFree(d) && |d| <= size
    ensures CStr(Slice(Padded(d), 0, size)) == d
  {
    var z := Zeros(BLOCK_SIZE * BlocksFor(|d|) - |d|);
    if |d| + |z| <= size {
      assert (d + z)[0..] == d + z;
      CStrPadded(d, z);
    } else {
      assert (d + z)[..size] == d + z[..size - |d|];
      CStrPadded(d, z[..size - |d|]);
    }
    if d + z == [] {
      CStrPadded([], []);
    }
  }

  // fs_read of the whole buffer but one byte, and the NUL behind it; -1 for a path that leads nowhere.
  method ReadText(fs: FileSystem.Fs, filename: Bytes, raw: array<Byte>) returns (sz: int)
    requires fs.Valid() && ReadReady(fs.S(), filename) && raw.Length > 0 && raw != fs.cwd
    modifies raw
    ensures fs.Valid() && fs.S() == old(fs.S())
    ensures Resolve(fs.S().tree, fs.S().dir, filename) == NO_ENTRY ==> sz == -1
    ensures Resolve(fs.S().tree, fs.S().dir, filename) != NO_ENTRY ==>
              && sz == |ReadPath(fs.S(), filename, raw.Length - 1)|
              && Terminated(raw[..]) && CStr(raw[..]) == FileText(fs.S(), filename, raw.Length)
  {
    hide ReadReady, Resolve, ReadPath, CStr, Terminated, Layout.Inv, Layout.Abs, SessionOk;
    sz := fs.Read(filename, raw, raw.Length - 1);
    if sz >= 0 {
      raw[sz] := NUL;
      TerminatedRead(raw[..], ReadPath(fs.S(), filename, raw.Length - 1));
    }
  }
}
