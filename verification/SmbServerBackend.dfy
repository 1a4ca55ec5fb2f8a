/**
 The server-level SMB backend (optional/smb/SmbServerBackend.cpp): one volume over all shares of a
 server. Each method performs the steps of the handle table in HandleTable, on one backend per share.
 */
module SmbServerBackend {
  import opened Bytes
  import opened SmbFiles
  import opened SmbBackend
  import opened HandleTable

  // ------------------------------------------------------------------ paths

  datatype ServerPath = ServerPath(share: string, rest: string)

  function SkipSlashes(path: string): string {
    if path != "" && path[0] == '/' then SkipSlashes(path[1..]) else path
  }

  function UpToSlash(path: string): string {
    if path == "" || path[0] == '/' then "" else [path[0]] + UpToSlash(path[1..])
  }

  /** The first component, and the remainder with its leading slash. */
  function Split(path: string): ServerPath {
    var p := SkipSlashes(path);
    var share := UpToSlash(p);
    ServerPath(share, if |share| <= |p| then p[|share|..] else "")
  }

  lemma {:induction false} UpToSlashIs(p: string)
    ensures var s := UpToSlash(p); s <= p && '/' !in s && (|s| < |p| ==> p[|s|] == '/')
  {
    if p != "" && p[0] != '/' {
      UpToSlashIs(p[1..]);
    }
  }

  method SplitServerPath(path: string) returns (share: string, rest: string)
    ensures ServerPath(share, rest) == Split(path)
  {
    hide UpToSlash, SkipSlashes;
    share, rest := "", "";
    var i := SkipLeading(path);
    UpToSlashIs(path[i..]);
    if i >= |path| {
      assert path[i..] == "";
      return;
    }
    var slash := i;
    while slash < |path| && path[slash] != '/'
      invariant i <= slash <= |path| && '/' !in path[i..slash]
    {
      assert path[i..slash + 1] == path[i..slash] + [path[slash]];
      slash := slash + 1;
    }
    ghost var p := path[i..];
    assert p[..slash - i] == path[i..slash] && p[slash - i..] == path[slash..];
    UpToSlashUnique(p, slash - i);
    if slash == |path| {
      return path[i..], "";
    }
    share := path[i..slash];
    rest := path[slash..];
  }

  method SkipLeading(path: string) returns (i: nat)
    ensures i <= |path| && path[i..] == SkipSlashes(path)
  {
    i := 0;
    while i < |path| && path[i] == '/'
      invariant 0 <= i <= |path| && SkipSlashes(path) == SkipSlashes(path[i..])
    {
      assert path[i..][1..] == path[i + 1..];
      i := i + 1;
    }
  }

  lemma {:induction false} UpToSlashUnique(p: string, n: nat)
    requires n <= |p| && '/' !in p[..n] && (n < |p| ==> p[n] == '/')
    ensures UpToSlash(p) == p[..n]
  {
    if n > 0 {
      assert p[0] == p[..n][0] && p[1..][..n - 1] == p[..n][1..];
      UpToSlashUnique(p[1..], n - 1);
      assert p[..n] == [p[0]] + p[1..][..n - 1];
    }
  }

  /** A share name and a path inside it are recovered from any spelling with extra leading slashes. */
  lemma {:induction false} SplitRecovers(slashes: string, share: string, rest: string)
    requires (forall c :: c in slashes ==> c == '/') && share != "" && '/' !in share
    requires rest == "" || rest[0] == '/'
    ensures Split(slashes + share + rest) == ServerPath(share, rest)
  {
    var path := slashes + share + rest;
    if slashes == "" {
      assert path == share + rest && share[0] in share;
      assert path[..|share|] == share && path[|share|..] == rest;
      UpToSlashUnique(path, |share|);
      assert share[0] != '/';
    } else {
      assert path[1..] == slashes[1..] + share + rest;
      assert slashes[0] in slashes && forall c :: c in slashes[1..] ==> c in slashes;
      SplitRecovers(slashes[1..], share, rest);
    }
  }

  /** Slashes alone name no share. */
  lemma {:induction false} SplitNothing(slashes: string)
    requires forall c :: c in slashes ==> c == '/'
    ensures Split(slashes) == ServerPath("", "")
  {
    if slashes != "" {
      assert slashes[0] in slashes && forall c :: c in slashes[1..] ==> c in slashes;
      SplitNothing(slashes[1..]);
    }
  }

  // ------------------------------------------------------------------ the volume

  lemma Connected(v: Volume, share: string)
    ensures share in v.backends ==> WithBackend(v, share) == v
    ensures share !in v.backends ==>
              WithBackend(v, share) == Volume(v.backends[share := NEW_BACKEND], v.handles, v.next)
  {
  }

  /** The path inside the share. */
  function InShare(rest: string): string {
    if rest != "" && rest[0] == '/' then rest[1..] else rest
  }

  lemma InShareIs(rest: string)
    ensures Spells(rest, InShare(rest))
  {
    if rest != "" && rest[0] == '/' {
      assert rest == "/" + rest[1..];
    }
  }

  /** The remainder of the path names this file on the share. */
  ghost predicate Leads(share: Share, rest: string, file: nat)
    reads share
  {
    InShare(rest) in share.names && share.names[InShare(rest)] == file && file in share.files
  }

  /** The backend object of share `n`, connected to its share, in the state `b` of the handle table. */
  ghost predicate Realises(backend: SmbBackend, share: Share, n: string, b: Backend)
    reads backend, share
  {
    && backend.name == n && backend.share == share && backend.connected && backend.basePath == ""
    && backend.Valid() && backend.State() == b
  }

  /** Every backend object realises its entry of `bs`. */
  ghost predicate AllRealise(backends: map<string, SmbBackend>, server: map<string, Share>, bs: map<string, Backend>)
    reads set n | n in backends :: backends[n], set n | n in server :: server[n]
  {
    forall n :: n in backends ==> n in server && n in bs && Realises(backends[n], server[n], n, bs[n])
  }

  lemma AllRealiseAlso(backends: map<string, SmbBackend>, server: map<string, Share>, bs: map<string, Backend>,
      n: string, made: SmbBackend)
    requires AllRealise(backends, server, bs) && n !in backends && n in server
             && Realises(made, server[n], n, NEW_BACKEND)
    ensures AllRealise(backends[n := made], server, bs[n := NEW_BACKEND])
  {
    hide Realises;
  }

  /** The pointers of the global map lead where the handle table says. */
  ghost predicate Agree(backends: map<string, SmbBackend>, handles: map<nat, (SmbBackend, nat)>, next: nat, t: Volume) {
    && (forall n :: n in backends <==> n in t.backends)
    && (forall h :: h in handles <==> h in t.handles)
    && (forall h :: h in handles ==>
          t.handles[h].share in backends && handles[h] == (backends[t.handles[h].share], t.handles[h].local))
    && next == t.next
  }

  lemma AgreeAfterConnect(backends: map<string, SmbBackend>, handles: map<nat, (SmbBackend, nat)>, next: nat, t: Volume,
      share: string, made: SmbBackend)
    requires Agree(backends, handles, next, t) && share !in backends
    ensures Agree(backends[share := made], handles, next, WithBackend(t, share))
  {
  }

  lemma AgreeAfterOpen(backends: map<string, SmbBackend>, handles: map<nat, (SmbBackend, nat)>, next: nat, t: Volume,
      share: string, file: nat)
    requires Agree(backends, handles, next, t) && share in backends && share in t.backends
    ensures Agree(backends, handles[next := (backends[share], t.backends[share].next)], next + 1,
            OpenFile(t, share, file))
  {
    hide OpenLocal;
  }

  lemma AgreeAfterClose(backends: map<string, SmbBackend>, handles: map<nat, (SmbBackend, nat)>, next: nat, t: Volume,
      h: nat)
    requires Agree(backends, handles, next, t) && h in handles
    ensures Agree(backends, handles - {h}, next, CloseHandle(t, h))
  {
    hide CloseLocal;
  }

  lemma AgreeOn(backends: map<string, SmbBackend>, handles: map<nat, (SmbBackend, nat)>, next: nat, t: Volume, h: nat)
    requires Agree(backends, handles, next, t)
    ensures h in handles <==> h in t.handles
    ensures h in handles ==>
              t.handles[h].share in backends && handles[h] == (backends[t.handles[h].share], t.handles[h].local)
    ensures forall n :: n in backends <==> n in t.backends
    ensures next == t.next
  {
  }

  class SmbServerBackend {
    /** The shares the server has, by name. */
    const server: map<string, Share>
    var backends: map<string, SmbBackend>
    var handles: map<nat, (SmbBackend, nat)>
    var nextHandle: nat
    /** The handle table these fields realise. */
    ghost var table: Volume

    ghost function Footprint(): set<object>
      reads this
    {
      (set n | n in backends :: backends[n]) + (set n | n in server :: server[n])
    }

    ghost predicate Valid()
      reads this, Footprint()
    {
      && (forall n :: n in server ==> server[n].Valid())
      && AllRealise(backends, server, table.backends)
      && Agree(backends, handles, nextHandle, table)
      && Inv(table)
    }

    constructor (server: map<string, Share>)
      requires forall n :: n in server ==> server[n].Valid()
      ensures Valid() && this.server == server && table == NEW_VOLUME
    {
      this.server := server;
      backends, handles, nextHandle := map[], map[], 1;
      table := NEW_VOLUME;
      new;
      NewVolumeOk();
    }

    /** The connected backend of a share, connecting on first use; null when the server refuses. */
    method ShareBackend(share: string) returns (backend: SmbBackend?)
      requires Valid()
      modifies this`backends, this`table
      ensures Valid()
      ensures backend != null ==>
                share in backends && backends[share] == backend && table == WithBackend(old(table), share)
      ensures backend == null ==> table == old(table)
      ensures backend == null ==> share !in old(backends) && (share in server ==> !server[share].steady)
      ensures handles == old(handles) && nextHandle == old(nextHandle)
      ensures backend != null ==> (share in old(backends) && backend == old(backends)[share]) || fresh(backend)
      ensures forall n :: n in backends && n != share ==> n in old(backends) && backends[n] == old(backends)[n]
    {
      hide Inv, WithBackend, Agree, Realises, AllRealise;
      AgreeOn(backends, handles, nextHandle, table, 0);
      Connected(table, share);
      if share in backends {
        return backends[share];
      }
      var refused: bool := *;
      if share !in server || (refused && !server[share].steady) {
        return null;
      }
      ConnectKeeps(table, share);
      var made := new SmbBackend(share, server[share], "");
      AgreeAfterConnect(backends, handles, nextHandle, table, share, made);
      assert Realises(made, server[share], share, NEW_BACKEND) by { Made(made, server[share], share, NEW_BACKEND); }
      AllRealiseAlso(backends, server, table.backends, share, made);
      backends := backends[share := made];
      table := WithBackend(table, share);
      backend := made;
    }

    /** Opening is one Open step of the handle table, on the share and file the path names. */
    method Open(path: string) returns (status: Status, handle: nat, size: nat)
      requires Valid()
      modifies this`backends, this`handles, this`nextHandle, this`table, set n | n in backends :: backends[n]
      ensures Valid()
      ensures Split(path).share == "" || Split(path).rest == "" ==> status == IsADirectory
      ensures status == Ok ==>
                && Split(path).share in server && handle == old(table).next
                && exists file: nat :: Leads(server[Split(path).share], Split(path).rest, file)
                     && (size == 0 || size == |server[Split(path).share].files[file]|)
                     && table == Apply(old(table), HandleTable.Open(Split(path).share, file))
      ensures status != Ok ==> table == old(table) || table == WithBackend(old(table), Split(path).share)
      ensures var p := Split(path);
              (&& p.share in server && server[p.share].steady && p.share != "" && p.rest != ""
               && InShare(p.rest) in server[p.share].names)
              ==> status == Ok
    {
      hide Inv, OpenFile, WithBackend, Agree, AllRealise, Split;
      handle, size := 0, 0;
      var share, rest := SplitServerPath(path);
      if share == "" || rest == "" {
        return IsADirectory, 0, 0;
      }
      Connected(table, share);
      var backend := ShareBackend(share);
      if backend == null {
        return AccessDenied, 0, 0;
      }
      status, handle, size := OpenOn(backend, share, rest);
    }

    /** Opening on one share's backend leaves every other backend as it is. */
    method OpenLocally(backend: SmbBackend, share: string, rest: string)
      returns (status: Status, local: nat, size: nat, ghost file: nat)
      requires Valid() && share in backends && backends[share] == backend
      modifies backend
      ensures share in server && share in table.backends
      ensures status == Ok ==>
                && local == table.backends[share].next && Leads(server[share], rest, file)
                && (size == 0 || size == |server[share].files[file]|)
                && AllRealise(backends, server, table.backends[share := OpenLocal(table.backends[share], file)])
      ensures status != Ok ==> AllRealise(backends, server, table.backends)
      ensures share in server && server[share].steady && InShare(rest) in server[share].names ==> status == Ok
    {
      hide Inv, Agree, Realises;
      Known(backend, server[share], share, table.backends[share]);
      forall n | n in backends && n != share ensures backends[n] != backend {
        Known(backends[n], server[n], n, table.backends[n]);
      }
      status, local, size := backend.Open(rest);
      file := 0;
      if status != Ok {
        Made(backend, server[share], share, table.backends[share]);
        return;
      }
      file := server[share].names[backend.SharePath(rest)];
      Made(backend, server[share], share, OpenLocal(table.backends[share], file));
    }

    /** The part of Open after the share's backend is at hand. */
    method OpenOn(backend: SmbBackend, share: string, rest: string) returns (status: Status, handle: nat, size: nat)
      requires Valid() && share in backends && backends[share] == backend
      modifies this`handles, this`nextHandle, this`table, backend
      ensures Valid()
      ensures status == Ok ==>
                && share in server && handle == old(table).next
                && share in old(table).backends
                && exists file: nat :: Leads(server[share], rest, file)
                     && (size == 0 || size == |server[share].files[file]|)
                     && table == OpenFile(old(table), share, file)
      ensures status != Ok ==> table == old(table)
      ensures share in server && server[share].steady && InShare(rest) in server[share].names ==> status == Ok
    {
      hide Inv, OpenFile, Agree, AllRealise;
      AgreeOn(backends, handles, nextHandle, table, 0);
      var local;
      ghost var file;
      status, local, size, file := OpenLocally(backend, share, rest);
      if status != Ok {
        return status, 0, 0;
      }
      OpenKeeps(table, share, file);
      OpenedBackends(table, share, file);
      AgreeAfterOpen(backends, handles, nextHandle, table, share, file);
      handle := nextHandle;
      nextHandle := nextHandle + 1;
      handles := handles[handle := (backend, local)];
      table := OpenFile(table, share, file);
    }

    /** Opening for writing, likewise; a missing file is created on its share. */
    method OpenWrite(path: string, unused: nat) returns (status: Status, handle: nat)
      requires Valid() && forall n :: n in server ==> unused !in server[n].files
      modifies this`backends, this`handles, this`nextHandle, this`table, set n | n in backends :: backends[n]
      modifies set n | n in server :: server[n]
      ensures Valid()
      ensures Split(path).share == "" || Split(path).rest == "" ==> status == IsADirectory
      ensures status == Ok ==>
                && Split(path).share in server && handle == old(table).next
                && exists file: nat :: Leads(server[Split(path).share], Split(path).rest, file)
                     && table == Apply(old(table), HandleTable.Open(Split(path).share, file))
      ensures status != Ok ==> table == old(table) || table == WithBackend(old(table), Split(path).share)
      ensures forall n, f: nat :: n in server && f in old(server[n].files) ==>
              f in server[n].files && server[n].files[f] == old(server[n].files)[f]
      ensures status == Ok ==>
                var p := Split(path);
                && p.share in server
                && MadeIfMissing(old(server[p.share].names), old(server[p.share].files),
                     server[p.share].names, server[p.share].files, InShare(p.rest), unused)
      ensures forall n :: n in server && (status != Ok || server[n] != server[Split(path).share]) ==>
              server[n].names == old(server[n].names) && server[n].files == old(server[n].files)
      ensures var p := Split(path);
              p.share in server && server[p.share].steady && p.share != "" && p.rest != "" && !PathEscapes(p.rest) ==>
                status == Ok
      ensures PathEscapes(Split(path).rest) ==> status != Ok
    {
      hide Inv, OpenFile, WithBackend, Agree, AllRealise, Split, MadeIfMissing;
      handle := 0;
      var share, rest := SplitServerPath(path);
      if share == "" || rest == "" {
        return IsADirectory, 0;
      }
      Connected(table, share);
      var backend := ShareBackend(share);
      if backend == null {
        return AccessDenied, 0;
      }
      AgreeOn(backends, handles, nextHandle, table, 0);
      assert share in server by { InServer(share); }
      status, handle := CreateOn(backend, share, rest, unused);
    }

    method CreateLocally(backend: SmbBackend, share: string, rest: string, unused: nat)
      returns (status: Status, local: nat, ghost file: nat)
      requires Valid() && share in backends && backends[share] == backend && share in server
               && unused !in server[share].files
      modifies backend, server[share]
      ensures forall n :: n in server ==> server[n].Valid()
      ensures share in table.backends
      ensures status == Ok ==>
                && local == table.backends[share].next && Leads(server[share], rest, file)
                && AllRealise(backends, server, table.backends[share := OpenLocal(table.backends[share], file)])
      ensures status != Ok ==> AllRealise(backends, server, table.backends)
      ensures forall n, f: nat :: n in server && f in old(server[n].files) ==>
              f in server[n].files && server[n].files[f] == old(server[n].files)[f]
      ensures status == Ok ==> share in server && MadeIfMissing(old(server[share].names), old(server[share].files),
                server[share].names, server[share].files, InShare(rest), unused)
      ensures forall n :: n in server && (status != Ok || server[n] != server[share]) ==>
              server[n].names == old(server[n].names) && server[n].files == old(server[n].files)
      ensures server[share].steady && !PathEscapes(rest) ==> status == Ok
      ensures PathEscapes(rest) ==> status == InvalidRequest
    {
      hide Inv, Agree, Realises, MadeIfMissing;
      Known(backend, server[share], share, table.backends[share]);
      forall n | n in backends && n != share
        ensures n in server && n in table.backends && backends[n] != backend && backends[n].name == n
                && backends[n].share == server[n]
        ensures backends[n].connected && backends[n].basePath == "" && backends[n].Valid()
                && backends[n].State() == table.backends[n]
      {
        Known(backends[n], server[n], n, table.backends[n]);
      }
      file := 0;
      InShareIs(rest);
      status, local := backend.OpenWrite(rest, unused);
      if status == Ok {
        file := server[share].names[backend.SharePath(rest)];
      }
      ghost var now := if status == Ok then OpenLocal(table.backends[share], file) else table.backends[share];
      Made(backend, server[share], share, now);
      forall n | n in backends && n != share ensures Realises(backends[n], server[n], n, table.backends[n]) {
        assert backends[n].Valid();
        Made(backends[n], server[n], n, table.backends[n]);
      }
      assert table.backends[share := table.backends[share]] == table.backends;
    }

    method CreateOn(backend: SmbBackend, share: string, rest: string, unused: nat) returns (status: Status, handle: nat)
      requires Valid() && share in backends && backends[share] == backend && share in server
               && unused !in server[share].files
      modifies this`handles, this`nextHandle, this`table, backend, server[share]
      ensures Valid()
      ensures status == Ok ==>
                && handle == old(table).next && share in old(table).backends
                && exists file: nat :: Leads(server[share], rest, file) && table == OpenFile(old(table), share, file)
      ensures status != Ok ==> table == old(table)
      ensures forall n, f: nat :: n in server && f in old(server[n].files) ==>
              f in server[n].files && server[n].files[f] == old(server[n].files)[f]
      ensures status == Ok ==> share in server && MadeIfMissing(old(server[share].names), old(server[share].files),
                server[share].names, server[share].files, InShare(rest), unused)
      ensures forall n :: n in server && (status != Ok || server[n] != server[share]) ==>
              server[n].names == old(server[n].names) && server[n].files == old(server[n].files)
      ensures server[share].steady && !PathEscapes(rest) ==> status == Ok
      ensures PathEscapes(rest) ==> status == InvalidRequest
    {
      hide Inv, OpenFile, Agree, AllRealise, MadeIfMissing;
      AgreeOn(backends, handles, nextHandle, table, 0);
      var local;
      ghost var file;
      status, local, file := CreateLocally(backend, share, rest, unused);
      if status != Ok {
        return status, 0;
      }
      OpenKeeps(table, share, file);
      OpenedBackends(table, share, file);
      AgreeAfterOpen(backends, handles, nextHandle, table, share, file);
      handle := nextHandle;
      nextHandle := nextHandle + 1;
      handles := handles[handle := (backend, local)];
      table := OpenFile(table, share, file);
    }

    /** Closing is one Close step; a handle that is not open is refused and nothing changes. */
    method Close(handle: nat) returns (status: Status)
      requires Valid()
      modifies this`handles, this`table, set n | n in backends :: backends[n]
      ensures Valid()
      ensures status == if handle in old(table).handles then Ok else BadHandle
      ensures table == Apply(old(table), HandleTable.Close(handle))
    {
      hide Inv, Agree, AllRealise, CloseHandle;
      AgreeOn(backends, handles, nextHandle, table, handle);
      if handle !in handles {
        NoClose(table, handle);
        return BadHandle;
      }
      var it := handles[handle];
      ghost var r := table.handles[handle];
      status := CloseLocally(it.0, r.share, it.1, handle);
      CloseKeeps(table, handle);
      AgreeAfterClose(backends, handles, nextHandle, table, handle);
      ClosedBackends(table, handle);
      handles := handles - {handle};
      table := CloseHandle(table, handle);
    }

    method CloseLocally(backend: SmbBackend, ghost share: string, local: nat, ghost handle: nat)
        returns (status: Status)
      requires Valid() && share in backends && backends[share] == backend
      requires handle in table.handles && table.handles[handle] == Ref(share, local)
      modifies backend
      ensures status == Ok && share in table.backends
      ensures AllRealise(backends, server, table.backends[share := CloseLocal(table.backends[share], local)])
    {
      hide Agree, Realises;
      assert Live(table, table.handles[handle]);
      Known(backend, server[share], share, table.backends[share]);
      forall n | n in backends && n != share ensures backends[n] != backend {
        Known(backends[n], server[n], n, table.backends[n]);
      }
      status := backend.Close(local);
      Made(backend, server[share], share, CloseLocal(table.backends[share], local));
    }

    /** Every handle dies and every share is let go; the handle counter goes on. */
    method Disconnect()
      requires Valid()
      modifies this`handles, this`backends, this`table, set n | n in backends :: backends[n]
      ensures Valid() && table == Apply(old(table), HandleTable.Disconnect)
      ensures forall n :: n in old(backends) ==> !old(backends)[n].connected && old(backends)[n].open == map[]
    {
      hide Inv, Agree;
      AgreeOn(backends, handles, nextHandle, table, 0);
      DisconnectKeeps(table);
      handles := map[];
      DisconnectEach();
      backends := map[];
      table := Disconnected(table);
      AgreeOnNothing(nextHandle, table);
    }

    /** Every backend disconnects from its share, closing its files. */
    method DisconnectEach()
      requires forall n :: n in backends ==> backends[n].Valid()
      modifies set n | n in backends :: backends[n]
      ensures forall n :: n in backends ==> !backends[n].connected && backends[n].open == map[]
    {
      var todo := backends.Keys;
      while todo != {}
        invariant todo <= backends.Keys
        invariant forall n :: n in backends ==> backends[n].Valid()
        invariant forall n :: n in backends && n !in todo ==> !backends[n].connected && backends[n].open == map[]
        decreases |todo|
      {
        var n :| n in todo;
        backends[n].Disconnect();
        todo := todo - {n};
      }
    }

    lemma AgreeOnNothing(next: nat, t: Volume)
      requires t.backends == map[] && t.handles == map[] && t.next == next
      ensures Agree(map[], map[], next, t)
    {
    }

    /** Reading on a global handle reads the file it was opened for; any other handle is refused. */
    method Read(handle: nat, offset: nat, length: nat) returns (status: Status, out: bytes)
      requires Valid()
      ensures Target(table, handle).None? ==> status == BadHandle && out == []
      ensures Target(table, handle).Some? ==> status == Ok || status == IoError
      ensures var t := Target(table, handle);
              t.Some? && t.value.share in server && server[t.value.share].steady ==> status == Ok
      ensures status == Ok ==>
                var t := Target(table, handle);
                && t.Some? && t.value.share in server && t.value.file in server[t.value.share].files && |out| <= length
                && (length < server[t.value.share].failure || server[t.value.share].steady ==>
                      out == ReadRange(server[t.value.share].files[t.value.file], offset, length))
    {
      hide Agree, Realises;
      AgreeOn(backends, handles, nextHandle, table, handle);
      if handle !in handles {
        return BadHandle, [];
      }
      var it := handles[handle];
      ghost var r := table.handles[handle];
      assert Live(table, r);
      Known(it.0, server[r.share], r.share, table.backends[r.share]);
      status, out := it.0.Read(it.1, offset, length);
    }

    /** Writing on a global handle changes exactly the file it was opened for, where the data landed. */
    method Write(handle: nat, offset: nat, data: bytes) returns (status: Status, written: nat)
      requires Valid()
      modifies if Target(table, handle).Some? && Target(table, handle).value.share in server
               then {server[Target(table, handle).value.share]} else {}
      ensures Valid()
      ensures Target(table, handle).None? ==> status == BadHandle && written == 0
      ensures Target(table, handle).Some? ==> status == Ok || status == IoError
      ensures var t := Target(table, handle);
              t.Some? && t.value.share in server && server[t.value.share].steady ==> status == Ok && written == |data|
      ensures status == Ok ==>
                var t := Target(table, handle);
                && t.Some? && t.value.share in server && written <= |data|
                && Landed(old(server[t.value.share].files), server[t.value.share].files, t.value.file, offset, data,
                    written)
      ensures status == IoError ==>
                var t := Target(table, handle);
                && t.Some? && t.value.share in server && written == 0
                && exists k :: Landed(old(server[t.value.share].files), server[t.value.share].files, t.value.file,
                    offset, data, k)
    {
      hide Agree, Realises, Landed;
      AgreeOn(backends, handles, nextHandle, table, handle);
      if handle !in handles {
        return BadHandle, 0;
      }
      var it := handles[handle];
      ghost var r := table.handles[handle];
      assert Live(table, r);
      Known(it.0, server[r.share], r.share, table.backends[r.share]);
      forall n | n in backends
        ensures n in server && n in table.backends && backends[n].name == n && backends[n].share == server[n]
        ensures backends[n].connected && backends[n].basePath == "" && backends[n].Valid()
                && backends[n].State() == table.backends[n]
      {
        Known(backends[n], server[n], n, table.backends[n]);
      }
      status, written := it.0.Write(it.1, offset, data);
      forall n | n in backends ensures Realises(backends[n], server[n], n, table.backends[n]) {
        assert backends[n].Valid();
        Made(backends[n], server[n], n, table.backends[n]);
      }
    }

    lemma InServer(n: string)
      requires n in backends && AllRealise(backends, server, table.backends)
      ensures n in server
    {
    }

    lemma Made(made: SmbBackend, share: Share, n: string, b: Backend)
      requires made.name == n && made.share == share && made.connected && made.basePath == "" && made.Valid()
      requires made.State() == b
      ensures Realises(made, share, n, b)
    {
    }

    lemma Known(made: SmbBackend, share: Share, n: string, b: Backend)
      requires Realises(made, share, n, b)
      ensures made.name == n && made.share == share && made.connected && made.basePath == "" && made.Valid()
      ensures made.State() == b
    {
    }
  }
}
