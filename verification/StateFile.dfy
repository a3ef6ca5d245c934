/** Files in the state directory: reads and writes that may be cut short, and replacement by
    rename, with every state the directory passes through on record. */
module StateFile {
  import opened Bytes
  import opened Snapshot

  type Files = map<string, Str>

  const TMP := ".tmp"
  const CHUNK: nat := 65536

  predicate SameAt(a: Files, b: Files, name: string) {
    (name in a <==> name in b) && (name in a ==> a[name] == b[name])
  }

  /** At most the files in `names` differ. */
  ghost predicate OnlyDiffer(a: Files, b: Files, names: set<string>) {
    forall n :: n !in names ==> SameAt(a, b, n)
  }

  /** The directory. `seen` records its state after every call of the operating system: what a
      crash at any point leaves behind. */
  class Directory {
    var files: Files
    /** While this holds, opening and reading an existing file does not fail. */
    var readable: bool
    /** While this holds, calls that write do not fail and write at least a byte. */
    var writable: bool
    ghost var seen: seq<Files>

    ghost method Record()
      modifies this`seen
      ensures seen == old(seen) + [files]
    {
      seen := seen + [files];
    }

    /** Opens for writing, creating or truncating. */
    method OpenTruncate(name: string) returns (ok: bool)
      modifies this`files, this`seen
      ensures files == if ok then old(files)[name := []] else old(files)
      ensures seen == old(seen) + [files]
      ensures writable ==> ok
    {
      ok := *;
      if writable { ok := true; }
      if ok { files := files[name := []]; }
      Record();
    }

    /** Writes a prefix of `bytes` at the end of the file; may fail or write nothing. */
    method Append(name: string, bytes: Str) returns (written: Option<nat>)
      requires name in files
      modifies this`files, this`seen
      ensures written.Some? ==> written.value <= |bytes| && files == old(files)[name := old(files)[name] + bytes[..written.value]]
      ensures written == None ==> OnlyDiffer(files, old(files), {name}) && name in files
      ensures seen == old(seen) + [files]
      ensures writable ==> written.Some? && (bytes != [] ==> written.value > 0)
    {
      var n: int := *;
      if writable && !(0 < n <= |bytes|) { n := |bytes|; }
      if 0 <= n <= |bytes| {
        files := files[name := files[name] + bytes[..n]];
        written := Some(n);
        var failed: bool := *;
        if failed && !writable { written := None; }
      } else {
        written := None;
      }
      Record();
    }

    /** Moves a file onto another name in one step. */
    method RenameAt(from: string, to: string) returns (ok: bool)
      modifies this`files, this`seen
      ensures ok ==> from in old(files) && files == (old(files) - {from})[to := old(files)[from]]
      ensures !ok ==> files == old(files)
      ensures seen == old(seen) + [files]
      ensures writable && from in old(files) ==> ok
    {
      ok := *;
      if writable { ok := true; }
      if from !in files { ok := false; }
      if ok { files := (files - {from})[to := files[from]]; }
      Record();
    }

    method Unlink(name: string)
      modifies this`files, this`seen
      ensures files == old(files) || files == old(files) - {name}
      ensures seen == old(seen) + [files]
      ensures writable ==> files == old(files) - {name}
    {
      var ok: bool := *;
      if ok || writable { files := files - {name}; }
      Record();
    }

    /** Reads up to `len` bytes: none only at the end or for `len` 0, and `eof` only at the end. */
    method Read(name: string, len: nat, offset: nat) returns (r: Option<(Str, bool)>)
      requires name in files
      ensures r.Some? ==>
                var (chunk, eof) := r.value;
                var rest := if offset <= |files[name]| then files[name][offset..] else [];
                && chunk <= rest && |chunk| <= len && (chunk == [] ==> rest == [] || len == 0)
                && (eof ==> chunk == rest)
      ensures readable ==> r.Some?
    {
      var rest := if offset <= |files[name]| then files[name][offset..] else [];
      var n: int := *;
      var failed: bool := *;
      if failed && !readable {
        return None;
      }
      if n <= 0 || n > |rest| || n > len {
        n := if |rest| < len then |rest| else len;
      }
      var eof: bool := *;
      return Some((rest[..n], eof && n == |rest|));
    }

    /** The states from call number `from` on satisfy: only `names` differ from `was`. */
    ghost predicate SeenOnly(from: nat, was: Files, names: set<string>)
      reads this
    {
      from <= |seen| && forall i :: from <= i < |seen| ==> OnlyDiffer(seen[i], was, names)
    }

    /** Overwrites `name`, however many writes that takes. */
    method WriteFile(name: string, contents: Str) returns (ok: bool)
      modifies this`files, this`seen
      ensures ok ==> files == old(files)[name := contents]
      ensures writable ==> ok
      ensures OnlyDiffer(files, old(files), {name}) && SeenOnly(|old(seen)|, old(files), {name})
      ensures seen[..|old(seen)|] == old(seen)
    {
      ok := OpenTruncate(name);
      if !ok { return; }
      var offset := 0;
      assert contents[..0] == [];
      while offset < |contents|
        invariant offset <= |contents| && files == old(files)[name := contents[..offset]]
        invariant SeenOnly(|old(seen)|, old(files), {name}) && seen[..|old(seen)|] == old(seen)
      {
        var written := Append(name, contents[offset..]);
        if written == None || written.value == 0 {
          return false;
        }
        assert contents[..offset] + contents[offset..][..written.value] == contents[..offset + written.value];
        offset := offset + written.value;
      }
      assert contents[..offset] == contents;
    }

    /** `name` holds a whole old or a whole new file, and no file but `name` and its temporary
        one differs, in every state from call number `from` on. */
    ghost predicate SeenWhole(from: nat, was: Files, name: string, contents: Str)
      reads this
    {
      from <= |seen| && forall i :: from <= i < |seen| ==>
        && OnlyDiffer(seen[i], was, {name, name + TMP})
        && (SameAt(seen[i], was, name) || (name in seen[i] && seen[i][name] == contents))
    }

    /** Replaces `name` by way of a temporary file: whatever is cut short, and wherever a crash
        falls, `name` holds all of the old or all of the new contents. */
    method WriteAtomic(name: string, contents: Str) returns (ok: bool)
      modifies this`files, this`seen
      ensures ok ==> name in files && files[name] == contents && name + TMP !in files
      ensures !ok ==> SameAt(files, old(files), name)
      ensures writable ==> ok
      ensures OnlyDiffer(files, old(files), {name, name + TMP})
      ensures SeenWhole(|old(seen)|, old(files), name, contents) && seen[..|old(seen)|] == old(seen)
    {
      var tmp := name + TMP;
      assert tmp != name;
      ok := WriteFile(tmp, contents);
      if !ok { return; }
      ok := RenameAt(tmp, name);
      if !ok {
        Unlink(tmp);
      }
    }

    method Rename(from: string, to: string) returns (ok: bool)
      modifies this`files, this`seen
      ensures ok ==> from in old(files) && files == (old(files) - {from})[to := old(files)[from]]
      ensures !ok ==> files == old(files)
      ensures seen == old(seen) + [files]
      ensures writable && from in old(files) ==> ok
    {
      ok := RenameAt(from, to);
    }

    /** The whole file, in as many reads as it takes; `None` if it cannot be opened. */
    method ReadFile(name: string) returns (r: Result<Option<Str>>)
      ensures r.Success? && r.value.Some? ==> name in files && r.value.value == files[name]
      ensures readable ==> r.Success? && (r.value.Some? <==> name in files)
    {
      var found: bool := *;
      if name !in files || (!readable && !found) {
        return Success(None);
      }
      var contents: Str := [];
      while true
        invariant |contents| <= |files[name]| && contents == files[name][..|contents|]
        decreases |files[name]| - |contents|
      {
        var got := Read(name, CHUNK, |contents|);
        if got == None {
          return Failure("failed reading");
        }
        var (chunk, eof) := got.value;
        assert contents + chunk == files[name][..|contents| + |chunk|];
        contents := contents + chunk;
        if eof || chunk == [] {
          break;
        }
      }
      assert contents == files[name];
      return Success(Some(contents));
    }

    /** The part of the range that exists, in as many reads as it takes. */
    method ReadRange(name: string, offset: nat, len: nat) returns (r: Result<Option<Str>>)
      ensures r.Success? && r.value.Some? ==> name in files && r.value.value == ReadAt(files[name], offset, len)
      ensures readable ==> r.Success? && (r.value.Some? <==> name in files)
    {
      var found: bool := *;
      if name !in files || (!readable && !found) {
        return Success(None);
      }
      ghost var whole := ReadAt(files[name], offset, len);
      var contents: Str := [];
      var pos, end := offset, offset + len;
      while pos < end
        invariant pos == offset + |contents| && |contents| <= |whole| && contents == whole[..|contents|]
        invariant pos <= end
        decreases end - pos
      {
        var want := if end - pos < CHUNK then end - pos else CHUNK;
        var got := Read(name, want, pos);
        if got == None {
          return Failure("failed reading");
        }
        var (chunk, eof) := got.value;
        RangePart(files[name], offset, len, |contents|, chunk);
        pos := pos + |chunk|;
        contents := contents + chunk;
        if eof || chunk == [] {
          break;
        }
      }
      assert contents == whole;
      return Success(Some(contents));
    }
  }

  /** A chunk read further on continues the range. */
  lemma RangePart(file: Str, offset: nat, len: nat, done: nat, chunk: Str)
    requires done < len && done <= |ReadAt(file, offset, len)| && |chunk| <= len - done
    requires chunk <= if offset + done <= |file| then file[offset + done..] else []
    ensures done + |chunk| <= |ReadAt(file, offset, len)|
    ensures ReadAt(file, offset, len)[..done] + chunk == ReadAt(file, offset, len)[..done + |chunk|]
    ensures chunk == [] && (offset + done > |file| || file[offset + done..] == []) ==> done == |ReadAt(file, offset, len)|
  {
    var whole := ReadAt(file, offset, len);
    if chunk != [] {
      var rest := file[offset + done..];
      assert offset + done + |chunk| <= |file|;
      forall j | 0 <= j < |chunk| ensures whole[done + j] == chunk[j] {
        assert chunk[j] == rest[j] == file[offset + done + j];
      }
      assert whole[..done] + chunk == whole[..done + |chunk|];
    }
  }
}
