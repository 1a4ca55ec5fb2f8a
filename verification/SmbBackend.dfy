/**
 The share-level SMB backend (optional/smb/SmbBackend.cpp): its table of open files, and the loops that
 turn short reads and short writes of the server into whole ones.
 */
module SmbBackend {
  import opened Bytes
  import opened Options
  import opened SmbFiles
  import HandleTable

  datatype Status =
    | Ok | NotFound | AccessDenied | IsADirectory | BadHandle | IoError | TransportError | InvalidRequest | Unsupported

  const MAX_WRITE := 0x10_0000 // 1 MiB per request

  /** Opening `name` for writing on a share: an existing file is left alone, a missing one is made, empty. */
  ghost predicate MadeIfMissing(names: map<string, nat>, files: map<nat, bytes>, names': map<string, nat>,
      files': map<nat, bytes>, name: string, unused: nat) {
    if name in names then names' == names && files' == files
    else names' == names[name := unused] && files' == files[unused := []]
  }

  /** A share as the server keeps it: files by number, and the names that lead to them. */
  class Share {
    var names: map<string, nat>
    var files: map<nat, bytes>
    /** A steady share refuses and fails no request; its reads and writes may still come back short. */
    const steady: bool
    /** The client library reports a failure by a negative number or by one from here on up. */
    const failure: nat

    ghost predicate Valid()
      reads this
    {
      failure > MAX_WRITE && forall name :: name in names ==> names[name] in files
    }

    constructor (names: map<string, nat>, files: map<nat, bytes>, steady: bool, failure: nat)
      requires failure > MAX_WRITE && forall name :: name in names ==> names[name] in files
      ensures Valid() && this.names == names && this.files == files
      ensures this.steady == steady && this.failure == failure
    {
      this.names, this.files, this.steady, this.failure := names, files, steady, failure;
    }

    /** Opening an existing file may be refused. */
    method Open(path: string) returns (file: Option<nat>)
      requires Valid()
      ensures file.Some? ==> path in names && names[path] == file.value && file.value in files
      ensures steady && path in names ==> file.Some?
    {
      var refused: bool := *;
      if (refused && !steady) || path !in names {
        return None;
      }
      return Some(names[path]);
    }

    /** Opening for writing creates a missing file, numbered `unused`, and may be refused. */
    method OpenOrCreate(path: string, unused: nat) returns (file: Option<nat>)
      requires Valid() && unused !in files
      modifies this
      ensures Valid() && (forall f :: f in old(files) ==> f in files && files[f] == old(files)[f])
      ensures file.Some? ==> path in names && names[path] == file.value && file.value in files
      ensures file.Some? ==> file.value == if path in old(names) then old(names)[path] else unused
      ensures if file.Some? then MadeIfMissing(old(names), old(files), names, files, path, unused)
              else names == old(names) && files == old(files)
      ensures steady ==> file.Some?
    {
      file := Open(path);
      if file.None? && path !in names {
        var refused: bool := *;
        if !refused || steady {
          names := names[path := unused];
          files := files[unused := []];
          file := Some(unused);
        }
      }
    }

    /**
     One read request into a buffer of zeros. Unless it failed, any positive number of the wanted bytes that
     are available were read, and none only at the end of the file. A failure reads nothing and shows only in
     the number, which a want of that size takes for a count.
     */
    method Pread(file: nat, want: nat, offset: nat) returns (n: int, data: bytes)
      requires file in files && want > 0
      ensures 0 <= n <= want ==> |data| == n
      ensures 0 <= n <= want && (n < failure || steady) ==>
                && (offset + n <= |files[file]| || n == 0) && data == ReadRange(files[file], offset, n)
                && (n == 0 ==> offset >= |files[file]|)
      ensures failure <= n <= want && !steady ==>
                || data == Zeros(n)
                || (offset + n <= |files[file]| && data == ReadRange(files[file], offset, n))
      ensures n < 0 || n > want ==> !steady && (n < 0 || n >= failure)
    {
      n := *;
      if (n < 0 || n >= failure) && !steady {
        var failed: bool := *;
        if failed || n < 0 || n > want || offset + n > |files[file]| {
          return n, if 0 <= n <= want then Zeros(n) else [];
        }
      }
      if offset >= |files[file]| {
        return 0, [];
      }
      if n < 1 || n > want || n > |files[file]| - offset {
        n := 1;
      }
      data := files[file][offset..offset + n];
    }

    /** One write request of a size no failure is taken for: a result within it is how many bytes landed. */
    method Pwrite(file: nat, data: bytes, offset: nat) returns (n: int)
      requires Valid() && file in files && |data| <= MAX_WRITE
      modifies this`files
      ensures Valid()
      ensures 0 <= n <= |data| ==> files == old(files)[file := Patch(old(files)[file], offset, data[..n])]
      ensures !(0 <= n <= |data|) ==> files == old(files) && (n < 0 || n >= failure)
      ensures steady && data != [] ==> 1 <= n <= |data|
    {
      n := *;
      if (n < 0 || n >= failure) && !steady {
        return;
      }
      if n < 0 || n > |data| || (n == 0 && steady) {
        n := |data|;
      }
      files := files[file := Patch(files[file], offset, data[..n])];
    }
  }

  /** Exactly the first `n` bytes of `data` landed at `offset` of one file; every other file is as before. */
  ghost predicate Landed(before: map<nat, bytes>, after: map<nat, bytes>, file: nat, offset: nat, data: bytes, n: nat) {
    && file in before && n <= |data|
    && after == before[file := Patch(before[file], offset, data[..n])]
  }

  lemma LandsNothing(files: map<nat, bytes>, file: nat, offset: nat, data: bytes)
    requires file in files
    ensures Landed(files, files, file, offset, data, 0)
  {
    assert Patch(files[file], offset, data[..0]) == files[file];
  }

  lemma LandsFurther(before: map<nat, bytes>, sofar: map<nat, bytes>, file: nat, offset: nat, data: bytes, total: nat,
      n: nat)
    requires Landed(before, sofar, file, offset, data, total) && total + n <= |data|
    ensures file in sofar
    ensures Landed(before, sofar[file := Patch(sofar[file], offset + total, data[total..total + n])], file, offset,
            data, total + n)
  {
    hide Patch;
    PatchTwice(before[file], offset, data[..total], data[total..total + n]);
    assert data[..total] + data[total..total + n] == data[..total + n];
  }

  predicate PathEscapes(path: string) {
    exists k :: 0 <= k <= |path| && IsDotDot(path, k)
  }

  /** A ".." component starts at `k`. */
  predicate IsDotDot(path: string, k: nat)
    requires k <= |path|
  {
    && (k == 0 || path[k - 1] == '/')
    && k + 2 <= |path| && path[k] == '.' && path[k + 1] == '.'
    && (k + 2 == |path| || path[k + 2] == '/')
  }

  /** It does exactly when it has ".." as a component: whole, first, last, or between two slashes. */
  lemma EscapesExactly(path: string)
    ensures PathEscapes(path) <==> exists a: string, b: string :: DotDotBetween(path, a, b)
  {
    if PathEscapes(path) {
      var k :| 0 <= k <= |path| && IsDotDot(path, k);
      assert path == path[..k] + path[k..k + 2] + path[k + 2..] && path[k..k + 2] == "..";
      assert DotDotBetween(path, path[..k], path[k + 2..]);
    }
    if a: string, b: string :| DotDotBetween(path, a, b) {
      assert IsDotDot(path, |a|);
    }
  }

  /** `path` is "..", with whole components before and after it, if any. */
  ghost predicate DotDotBetween(path: string, a: string, b: string) {
    path == a + ".." + b && (a == "" || a[|a| - 1] == '/') && (b == "" || b[0] == '/')
  }

  /** Component by component, as the request validation goes. */
  method CheckEscapes(path: string) returns (escapes: bool)
    ensures escapes == PathEscapes(path)
  {
    var i := 0;
    while i < |path|
      invariant 0 <= i <= |path|
      invariant i < |path| ==> i == 0 || path[i - 1] == '/'
      invariant forall k :: 0 <= k < i ==> !IsDotDot(path, k)
    {
      var slash := i;
      while slash < |path| && path[slash] != '/'
        invariant i <= slash <= |path|
        invariant forall k :: i <= k < slash ==> path[k] != '/'
      {
        slash := slash + 1;
      }
      if path[i..slash] == ".." {
        assert path[i] == path[i..slash][0] && path[i + 1] == path[i..slash][1];
        assert IsDotDot(path, i);
        return true;
      }
      assert slash == i + 2 ==> path[i..slash] == [path[i], path[i + 1]];
      forall k | i <= k <= slash && k < |path| ensures !IsDotDot(path, k) {
      }
      if slash == |path| {
        i := slash;
        break;
      }
      i := slash + 1;
    }
    escapes := false;
  }

  /** `path` is `p`, or `p` with a slash before it. */
  ghost predicate Spells(path: string, p: string) {
    path == "/" + p || (path == p && (p == "" || p[0] != '/'))
  }

  /** Only slashes. */
  ghost predicate Slashes(s: string) {
    forall c :: c in s ==> c == '/'
  }

  class SmbBackend {
    const name: string
    const share: Share
    var connected: bool
    var open: map<nat, nat>
    var nextHandle: nat
    const basePath: string

    ghost predicate Valid()
      reads this, share
    {
      && share.Valid()
      && (!connected ==> open == map[])
      && (forall h :: h in open ==> open[h] in share.files)
    }

    ghost function State(): HandleTable.Backend
      reads this
    {
      HandleTable.Backend(open, nextHandle)
    }

    /** Connecting drops the slashes around the base directory. */
    constructor (name: string, share: Share, configured: string)
      requires share.Valid()
      ensures Valid() && connected && this.share == share && this.name == name
      ensures State() == HandleTable.NEW_BACKEND
      ensures exists a: string, b: string :: configured == a + basePath + b && Slashes(a) && Slashes(b)
      ensures basePath != "" ==> basePath[0] != '/' && basePath[|basePath| - 1] != '/'
    {
      var base := configured;
      ghost var a: string, b: string := "", "";
      while base != "" && base[0] == '/'
        invariant configured == a + base && Slashes(a)
        decreases |base|
      {
        assert a + base == (a + [base[0]]) + base[1..];
        a, base := a + [base[0]], base[1..];
      }
      assert configured == a + base + b;
      while base != "" && base[|base| - 1] == '/'
        invariant configured == a + base + b && Slashes(b)
        invariant base != "" ==> base[0] != '/'
        decreases |base|
      {
        var last := base[|base| - 1];
        assert base == base[..|base| - 1] + [last];
        assert a + base + b == a + base[..|base| - 1] + ([last] + b);
        b, base := [last] + b, base[..|base| - 1];
      }
      this.name, this.share, this.basePath := name, share, base;
      connected, open, nextHandle := true, map[], 1;
    }

    function SharePath(path: string): string {
      var rel := if path != "" && path[0] == '/' then path[1..] else path;
      if basePath == "" then rel else if rel == "" then basePath else basePath + "/" + rel
    }

    /** One slash before the path makes no difference, and the file lies under the base directory. */
    lemma SharePathIs(path: string, p: string)
      requires Spells(path, p)
      ensures SharePath(path) == if basePath == "" then p else if p == "" then basePath else basePath + "/" + p
    {
      assert path == "/" + p ==> path[1..] == p;
    }

    method Open(path: string) returns (status: Status, handle: nat, size: nat)
      requires Valid()
      modifies this`open, this`nextHandle
      ensures Valid()
      ensures !connected ==> status == TransportError
      ensures status == Ok ==>
                && connected && handle == old(nextHandle)
                && SharePath(path) in share.names && share.names[SharePath(path)] in share.files
                && State() == HandleTable.OpenLocal(old(State()), share.names[SharePath(path)])
                && (size == 0 || size == |share.files[share.names[SharePath(path)]]|)
      ensures status != Ok ==> State() == old(State()) && (status == TransportError || status == NotFound)
      ensures connected && share.steady && SharePath(path) in share.names ==> status == Ok
      ensures forall p | Spells(path, p) ::
                var file := if basePath == "" then p else if p == "" then basePath else basePath + "/" + p;
                && (status == Ok ==>
                      file in share.names && State() == HandleTable.OpenLocal(old(State()), share.names[file]))
                && (connected && share.steady && file in share.names ==> status == Ok)
                && (connected && file !in share.names ==> status == NotFound)
    {
      handle, size := 0, 0;
      if !connected {
        return TransportError, 0, 0;
      }
      forall p | Spells(path, p) {
        SharePathIs(path, p);
      }
      var sp := SharePath(path);
      var fh := share.Open(sp);
      if fh.None? {
        return NotFound, 0, 0;
      }
      var statWorked: bool := *;
      if statWorked {
        size := |share.files[fh.value]|;
      }
      handle := nextHandle;
      nextHandle := nextHandle + 1;
      open := open[handle := fh.value];
      status := Ok;
    }

    method OpenWrite(path: string, unused: nat) returns (status: Status, handle: nat)
      requires Valid() && unused !in share.files
      modifies this`open, this`nextHandle, share
      ensures Valid()
      ensures !connected ==> status == TransportError
      ensures connected && PathEscapes(path) ==> status == InvalidRequest
      ensures connected && !PathEscapes(path) && share.steady ==> status == Ok
      ensures status == Ok ==>
                && connected && handle == old(nextHandle)
                && SharePath(path) in share.names && share.names[SharePath(path)] in share.files
                && State() == HandleTable.OpenLocal(old(State()), share.names[SharePath(path)])
      ensures status != Ok ==> State() == old(State())
      ensures forall f :: f in old(share.files) ==> f in share.files && share.files[f] == old(share.files)[f]
      ensures status != Ok ==> share.names == old(share.names) && share.files == old(share.files)
      ensures status == Ok ==> forall p | Spells(path, p) ::
                  var file := if basePath == "" then p else if p == "" then basePath else basePath + "/" + p;
                  && MadeIfMissing(old(share.names), old(share.files), share.names, share.files, file, unused)
                  && file in share.names && State() == HandleTable.OpenLocal(old(State()), share.names[file])
    {
      handle := 0;
      if !connected {
        return TransportError, 0;
      }
      var escapes := CheckEscapes(path);
      if escapes {
        return InvalidRequest, 0;
      }
      forall p | Spells(path, p) {
        SharePathIs(path, p);
      }
      var sp := SharePath(path);
      var fh := share.OpenOrCreate(sp, unused);
      if fh.None? {
        return AccessDenied, 0;
      }
      handle := nextHandle;
      nextHandle := nextHandle + 1;
      open := open[handle := fh.value];
      status := Ok;
    }

    /**
     A successful read returns exactly what the file holds in the range, however short the server's reads, if
     the length is below the numbers that report failures; from there on a failure may pass for data.
     */
    method Read(handle: nat, offset: nat, length: nat) returns (status: Status, out: bytes)
      requires Valid()
      ensures handle !in open ==> status == BadHandle && out == []
      ensures handle in open ==> status == Ok || (status == IoError && !share.steady)
      ensures status == Ok ==> handle in open && open[handle] in share.files && |out| <= length
      ensures status == Ok && (length < share.failure || share.steady) ==>
                out == ReadRange(share.files[open[handle]], offset, length)
      ensures status != Ok ==> out == []
    {
      if handle !in open {
        return BadHandle, [];
      }
      var fh := open[handle];
      var got := 0;
      out := [];
      ghost var content := share.files[fh];
      ghost var mistaken := false;
      while got < length
        invariant 0 <= got <= length && |out| == got
        invariant mistaken ==> length >= share.failure && !share.steady
        invariant !mistaken ==> out == ReadRange(content, offset, got)
        decreases length - got
      {
        var want := length - got;
        var n, data := share.Pread(fh, want, offset + got);
        if n < 0 || n > want {
          return IoError, [];
        }
        if n == 0 {
          break;
        }
        ReadRangeExtends(content, offset, got, n);
        out := out + data;
        got := got + n;
        mistaken := mistaken || (n >= share.failure && !share.steady);
      }
      status := Ok;
    }

    /**
     A successful write reports exactly what landed, at its place and nowhere else. After a failure
     nothing is reported, though some prefix of the data may have landed.
     */
    method Write(handle: nat, offset: nat, data: bytes) returns (status: Status, written: nat)
      requires Valid()
      modifies share`files
      ensures Valid() && forall f :: f in old(share.files) ==> f in share.files
      ensures handle !in open ==> status == BadHandle && written == 0 && share.files == old(share.files)
      ensures handle in open && share.steady ==> status == Ok && written == |data|
      ensures handle in open ==>
                && open[handle] in old(share.files)
                && (status == Ok || status == IoError) && (status == IoError ==> written == 0) && written <= |data|
                && (status == Ok ==> Landed(old(share.files), share.files, open[handle], offset, data, written))
                && (status == IoError ==> exists k :: Landed(old(share.files), share.files, open[handle], offset, data,
                    k))
    {
      hide Landed, Patch;
      written := 0;
      if handle !in open {
        return BadHandle, 0;
      }
      var fh := open[handle];
      var total := 0;
      ghost var before := share.files;
      LandsNothing(before, fh, offset, data);
      while total < |data|
        invariant Valid() && 0 <= total <= |data|
        invariant Landed(before, share.files, fh, offset, data, total)
        invariant forall f :: f in before ==> f in share.files
        decreases |data| - total
      {
        var want := Min(|data| - total, MAX_WRITE);
        var piece := data[total..total + want];
        ghost var sofar := share.files;
        var n := share.Pwrite(fh, piece, offset + total);
        if n < 0 || n > want {
          return IoError, 0;
        }
        assert piece[..n] == data[total..total + n];
        LandsFurther(before, sofar, fh, offset, data, total, n);
        if n == 0 {
          break;
        }
        total := total + n;
      }
      written := total;
      status := Ok;
    }

    method Close(handle: nat) returns (status: Status)
      requires Valid()
      modifies this`open
      ensures Valid()
      ensures status == if handle in old(open) then Ok else BadHandle
      ensures State() == if handle in old(open) then HandleTable.CloseLocal(old(State()), handle) else old(State())
    {
      if handle !in open {
        return BadHandle;
      }
      open := open - {handle};
      status := Ok;
    }

    method Disconnect()
      requires Valid()
      modifies this`open, this`connected
      ensures Valid() && !connected && open == map[] && nextHandle == old(nextHandle)
    {
      open := map[];
      connected := false;
    }
  }
}
