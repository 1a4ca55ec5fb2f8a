/**
 The two layers of file handles of a server volume (optional/smb/SmbServerBackend.cpp over
 optional/smb/SmbBackend.cpp): every share has its own table of local handles, and the volume maps
 global handles to a share and a local handle.
 */
module HandleTable {
  import opened Options

  /** One share's open files by local handle, and the next local handle. */
  datatype Backend = Backend(open: map<nat, nat>, next: nat)

  /** Where a global handle leads. */
  datatype Ref = Ref(share: string, local: nat)

  datatype Volume = Volume(backends: map<string, Backend>, handles: map<nat, Ref>, next: nat)

  const NEW_BACKEND := Backend(map[], 1)
  const NEW_VOLUME := Volume(map[], map[], 1)

  datatype File = File(share: string, file: nat)

  // ------------------------------------------------------------------ steps

  function OpenLocal(b: Backend, file: nat): Backend {
    Backend(b.open[b.next := file], b.next + 1)
  }

  function CloseLocal(b: Backend, local: nat): Backend {
    b.(open := b.open - {local})
  }

  function WithBackend(v: Volume, share: string): Volume {
    if share in v.backends then v else v.(backends := v.backends[share := NEW_BACKEND])
  }

  /** A file opened on a connected share: a new local handle and a new global handle. */
  function OpenFile(v: Volume, share: string, file: nat): Volume
    requires share in v.backends
  {
    Volume(v.backends[share := OpenLocal(v.backends[share], file)],
           v.handles[v.next := Ref(share, v.backends[share].next)], v.next + 1)
  }

  function CloseHandle(v: Volume, h: nat): Volume {
    if h !in v.handles then v
    else
      var r := v.handles[h];
      v.(handles := v.handles - {h},
         backends := if r.share in v.backends then v.backends[r.share := CloseLocal(v.backends[r.share], r.local)]
             else v.backends)
  }

  /** The counter of global handles survives. */
  function Disconnected(v: Volume): Volume {
    v.(backends := map[], handles := map[])
  }

  /** The file behind a local handle. */
  function FileAt(v: Volume, r: Ref): Option<File> {
    if r.share in v.backends && r.local in v.backends[r.share].open then
      Some(File(r.share, v.backends[r.share].open[r.local]))
    else None
  }

  /** The file a global handle reaches. */
  function Target(v: Volume, h: nat): Option<File> {
    if h in v.handles then FileAt(v, v.handles[h]) else None
  }

  // ------------------------------------------------------------------ runs

  datatype Event = Connect(share: string) | Open(share: string, file: nat) | Close(h: nat) | Disconnect

  function Apply(v: Volume, e: Event): Volume {
    match e
    case Connect(share) => WithBackend(v, share)
    case Open(share, file) => OpenFile(WithBackend(v, share), share, file)
    case Close(h) => CloseHandle(v, h)
    case Disconnect => Disconnected(v)
  }

  function Run(v: Volume, events: seq<Event>): Volume {
    if events == [] then v else Apply(Run(v, events[..|events| - 1]), events[|events| - 1])
  }

  /** The local handle `r` is open in its share. */
  predicate Live(v: Volume, r: Ref) {
    r.share in v.backends && r.local in v.backends[r.share].open
  }

  /** The share is connected and would hand out a local handle after `r`. */
  predicate Issued(v: Volume, r: Ref) {
    r.share in v.backends && r.local < v.backends[r.share].next
  }

  ghost predicate Names(v: Volume, r: Ref) {
    exists h: nat :: h in v.handles && v.handles[h] == r
  }

  /** Global handles and live local handles correspond one to one, and both counters are ahead of them. */
  ghost predicate Inv(v: Volume) {
    && (forall h: nat :: h in v.handles ==> h < v.next && Live(v, v.handles[h]))
    && (forall h: nat, k: nat :: h in v.handles && k in v.handles && v.handles[h] == v.handles[k] ==> h == k)
    && (forall r :: Live(v, r) ==> Issued(v, r) && Names(v, r))
  }

  lemma LiveAfterOpen(v: Volume, share: string, file: nat, r: Ref)
    requires share in v.backends
    ensures var made := Ref(share, v.backends[share].next);
            && (Live(OpenFile(v, share, file), r) <==> Live(v, r) || r == made)
            && (Issued(OpenFile(v, share, file), r) <==> Issued(v, r) || r == made)
  {
  }

  lemma LiveAfterClose(v: Volume, h: nat, r: Ref)
    requires h in v.handles
    ensures Live(CloseHandle(v, h), r) <==> Live(v, r) && r != v.handles[h]
    ensures Issued(CloseHandle(v, h), r) <==> Issued(v, r)
  {
  }

  lemma NextIsNotIssued(v: Volume, share: string)
    requires Inv(v) && share in v.backends
    ensures !Live(v, Ref(share, v.backends[share].next))
  {
    assert !Issued(v, Ref(share, v.backends[share].next));
  }

  lemma OpenKeeps(v: Volume, share: string, file: nat)
    requires Inv(v) && share in v.backends
    ensures Inv(OpenFile(v, share, file))
  {
    var w := OpenFile(v, share, file);
    var made := Ref(share, v.backends[share].next);
    NextIsNotIssued(v, share);
    hide Live, Issued;
    assert w.handles == v.handles[v.next := made];
    forall h: nat | h in w.handles ensures h < w.next && Live(w, w.handles[h]) {
      LiveAfterOpen(v, share, file, w.handles[h]);
    }
    forall r | Live(w, r) ensures Issued(w, r) && Names(w, r) {
      LiveAfterOpen(v, share, file, r);
      if Live(v, r) {
        var h: nat :| h in v.handles && v.handles[h] == r;
        assert h in w.handles && w.handles[h] == r;
      } else {
        assert v.next in w.handles && w.handles[v.next] == r;
      }
    }
  }

  lemma CloseKeeps(v: Volume, h: nat)
    requires Inv(v)
    ensures Inv(CloseHandle(v, h))
  {
    if h in v.handles {
      var w := CloseHandle(v, h);
      hide Live, Issued, CloseHandle;
      assert w.handles == v.handles - {h} && w.next == v.next by { ClosedTable(v, h); }
      forall k: nat | k in w.handles ensures k < w.next && Live(w, w.handles[k]) {
        LiveAfterClose(v, h, w.handles[k]);
      }
      forall r | Live(w, r) ensures Issued(w, r) && Names(w, r) {
        LiveAfterClose(v, h, r);
        var k: nat :| k in v.handles && v.handles[k] == r;
        assert k in w.handles && w.handles[k] == r;
      }
    }
  }

  lemma ClosedTable(v: Volume, h: nat)
    requires h in v.handles
    ensures CloseHandle(v, h).handles == v.handles - {h} && CloseHandle(v, h).next == v.next
  {
  }

  lemma ConnectKeeps(v: Volume, share: string)
    requires Inv(v)
    ensures Inv(WithBackend(v, share))
  {
    var w := WithBackend(v, share);
    forall r ensures Live(w, r) <==> Live(v, r) {
    }
    forall r ensures Issued(v, r) ==> Issued(w, r) {
    }
    hide Live, Issued;
    assert w.handles == v.handles && w.next == v.next;
    forall r | Live(w, r) ensures Names(w, r) {
      var k: nat :| k in v.handles && v.handles[k] == r;
      assert k in w.handles && w.handles[k] == r;
    }
  }

  lemma ApplyKeeps(v: Volume, e: Event)
    requires Inv(v)
    ensures Inv(Apply(v, e)) && v.next <= Apply(v, e).next
  {
    hide Inv, OpenFile, CloseHandle;
    match e
    case Connect(share) => ConnectKeeps(v, share);
    case Open(share, file) =>
      ConnectKeeps(v, share);
      OpenKeeps(WithBackend(v, share), share, file);
      OpenedTable(WithBackend(v, share), share, file);
    case Close(h) =>
      CloseKeeps(v, h);
      if h in v.handles { ClosedTable(v, h); } else { NoClose(v, h); }
    case Disconnect => DisconnectKeeps(v);
  }

  lemma NoClose(v: Volume, h: nat)
    requires h !in v.handles
    ensures CloseHandle(v, h) == v
  {
  }

  lemma OpenedTable(v: Volume, share: string, file: nat)
    requires share in v.backends
    ensures var w := OpenFile(v, share, file);
            w.handles == v.handles[v.next := Ref(share, v.backends[share].next)] && w.next == v.next + 1
  {
  }

  lemma OpenedBackends(v: Volume, share: string, file: nat)
    requires share in v.backends
    ensures OpenFile(v, share, file).backends == v.backends[share := OpenLocal(v.backends[share], file)]
  {
  }

  lemma ClosedBackends(v: Volume, h: nat)
    requires h in v.handles && Inv(v)
    ensures var r := v.handles[h];
            && r.share in v.backends
            && CloseHandle(v, h).backends == v.backends[r.share := CloseLocal(v.backends[r.share], r.local)]
  {
    assert Live(v, v.handles[h]);
  }

  lemma DisconnectKeeps(v: Volume)
    ensures Inv(Disconnected(v))
  {
  }

  /** In every reachable state the correspondence holds: no collision across shares, no leaked local handle. */
  lemma {:induction false} EveryRun(v: Volume, events: seq<Event>)
    requires Inv(v)
    ensures Inv(Run(v, events)) && v.next <= Run(v, events).next
  {
    hide Inv, Apply;
    if events != [] {
      EveryRun(v, events[..|events| - 1]);
      ApplyKeeps(Run(v, events[..|events| - 1]), events[|events| - 1]);
    }
  }

  lemma FileAfterOpen(v: Volume, share: string, file: nat, r: Ref)
    requires share in v.backends
    ensures FileAt(OpenFile(v, share, file), r)
         == if r == Ref(share, v.backends[share].next) then Some(File(share, file)) else FileAt(v, r)
  {
  }

  lemma FileAfterClose(v: Volume, h: nat, r: Ref)
    requires h in v.handles && r != v.handles[h]
    ensures FileAt(CloseHandle(v, h), r) == FileAt(v, r)
  {
  }

  lemma FileAfterConnect(v: Volume, share: string, r: Ref)
    requires Live(v, r)
    ensures FileAt(WithBackend(v, share), r) == FileAt(v, r)
  {
  }

  /** Opening yields a handle never issued before, which leads to the file opened, and moves no other handle. */
  lemma OpenIsFresh(v: Volume, share: string, file: nat)
    requires Inv(v)
    ensures v.next !in v.handles && Target(Apply(v, Open(share, file)), v.next) == Some(File(share, file))
    ensures forall h: nat :: h in v.handles ==> Target(Apply(v, Open(share, file)), h) == Target(v, h)
  {
    hide Live, Issued, FileAt, OpenFile;
    var u := WithBackend(v, share);
    var made := Ref(share, u.backends[share].next);
    OpenedTable(u, share, file);
    FileAfterOpen(u, share, file, made);
    ConnectKeeps(v, share);
    assert !Live(u, made) by { NextIsNotIssued(u, share); }
    forall h: nat | h in v.handles ensures Target(Apply(v, Open(share, file)), h) == Target(v, h) {
      assert Live(v, v.handles[h]) && Live(u, u.handles[h]);
      FileAfterConnect(v, share, v.handles[h]);
      FileAfterOpen(u, share, file, v.handles[h]);
    }
  }

  predicate Spares(e: Event, h: nat) {
    !e.Disconnect? && e != Close(h)
  }

  lemma ApplySpares(v: Volume, e: Event, h: nat)
    requires Inv(v) && h in v.handles && Spares(e, h)
    ensures h in Apply(v, e).handles && Target(Apply(v, e), h) == Target(v, h)
  {
    hide Live, Issued, FileAt, OpenFile, CloseHandle;
    match e
    case Connect(share) => FileAfterConnect(v, share, v.handles[h]);
    case Open(share, file) =>
      OpenIsFresh(v, share, file);
      OpenedTable(WithBackend(v, share), share, file);
    case Close(k) =>
      if k in v.handles {
        ClosedTable(v, k);
        FileAfterClose(v, k, v.handles[h]);
      } else {
        NoClose(v, k);
      }
    case Disconnect =>
  }

  /** A handle keeps leading to the file it was opened for, whatever is opened or closed on any share. */
  lemma {:induction false} HandleIsStable(v: Volume, events: seq<Event>, h: nat)
    requires Inv(v) && h in v.handles
    requires forall e :: e in events ==> Spares(e, h)
    ensures h in Run(v, events).handles && Target(Run(v, events), h) == Target(v, h)
  {
    hide Apply, Spares, Inv, Target;
    if events != [] {
      var init, last := events[..|events| - 1], events[|events| - 1];
      assert events == init + [last];
      HandleIsStable(v, init, h);
      EveryRun(v, init);
      ApplySpares(Run(v, init), last, h);
    }
  }

  /** Once closed, or dropped by a disconnect, a handle is dead for the rest of the run: handles are never reused. */
  lemma {:induction false} DeadForever(v: Volume, events: seq<Event>, h: nat)
    requires Inv(v) && h < v.next && h !in v.handles
    ensures h !in Run(v, events).handles
  {
    if events != [] {
      hide Inv, OpenFile, CloseHandle;
      var u, last := Run(v, events[..|events| - 1]), events[|events| - 1];
      DeadForever(v, events[..|events| - 1], h);
      EveryRun(v, events[..|events| - 1]);
      match last
      case Connect(share) =>
      case Open(share, file) => OpenedTable(WithBackend(u, share), share, file);
      case Close(k) => if k in u.handles { ClosedTable(u, k); } else { NoClose(u, k); }
      case Disconnect =>
    }
  }

  /** The life of a handle over a whole run: opened, kept, then closed for good. */
  lemma HandleLife(before: seq<Event>, share: string, file: nat, kept: seq<Event>, last: Event, after: seq<Event>)
    requires var h := Run(NEW_VOLUME, before).next;
             (forall e :: e in kept ==> Spares(e, h)) && !Spares(last, h)
    ensures var v0 := Run(NEW_VOLUME, before);
            var h := v0.next;
            var v1 := Run(Apply(v0, Open(share, file)), kept);
            && h !in v0.handles
            && Target(v1, h) == Some(File(share, file))
            && h !in Run(Apply(v1, last), after).handles
  {
    hide Apply, Inv, Spares, Target;
    NewVolumeOk();
    EveryRun(NEW_VOLUME, before);
    var v0 := Run(NEW_VOLUME, before);
    var h := v0.next;
    OpenIsFresh(v0, share, file);
    Opened(v0, share, file);
    ApplyKeeps(v0, Open(share, file));
    HandleIsStable(Apply(v0, Open(share, file)), kept, h);
    EveryRun(Apply(v0, Open(share, file)), kept);
    var v1 := Run(Apply(v0, Open(share, file)), kept);
    ApplyKeeps(v1, last);
    Ends(v1, last, h);
    DeadForever(Apply(v1, last), after, h);
  }

  lemma NewVolumeOk()
    ensures Inv(NEW_VOLUME)
  {
  }

  lemma Opened(v: Volume, share: string, file: nat)
    ensures Apply(v, Open(share, file)).next == v.next + 1 && v.next in Apply(v, Open(share, file)).handles
  {
  }

  lemma Ends(v: Volume, e: Event, h: nat)
    requires !Spares(e, h)
    ensures h !in Apply(v, e).handles
  {
  }
}
