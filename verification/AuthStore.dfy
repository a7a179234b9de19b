/** Remembered HTTP credentials: one entry per protection space, bounded, each with the directories
    the credentials were accepted in, and what is sent before any challenge. */
module CredentialStores {
  import opened Collections
  import opened Text

  datatype Target = Server | Proxy

  datatype Scheme = Basic | Digest | Bearer | Negotiate | Ntlm | Other(name: string)

  datatype ProtectionSpace = ProtectionSpace(target: Target, scheme: Scheme, origin: Option<string>, realm: string)

  datatype Credentials = UserPassword(username: string, password: string) | Raw(value: string)

  datatype StoredCredentials = StoredCredentials(credentials: Credentials, stamp: nat, directories: seq<string>)

  type Entries = map<ProtectionSpace, StoredCredentials>

  /** The state of a store. The clock counts the calls to `store`. */
  datatype Memory = Memory(entries: Entries, clock: nat)

  const EMPTY := Memory(map[], 0)
  const MAX_UPFRONT_DIRECTORIES := 8
  const MAX_CREDENTIAL_ENTRIES := 256

  // ----- Directories ------------------------------------------------------------------------

  /** The directory of a path: what comes up to and with its last slash. */
  function DirectoryOf(path: string): (d: string)
    ensures d != "" && d[|d| - 1] == '/'
    ensures if '/' in path then d <= path && '/' !in path[|d|..] else d == "/"
  {
    if path == "" then "/"
    else if path[|path| - 1] == '/' then path
    else
      var d := DirectoryOf(path[..|path| - 1]);
      d
  }

  predicate Covers(directories: seq<string>, path: string) {
    exists i | 0 <= i < |directories| :: directories[i] <= path
  }

  /** No directory covers another. */
  predicate PrefixFree(directories: seq<string>) {
    forall i, j | 0 <= i < |directories| && 0 <= j < |directories| && i != j :: !(directories[i] <= directories[j])
  }

  /** The directories that are not at or under `d`. */
  function NotUnder(directories: seq<string>, d: string): seq<string> {
    if directories == [] then []
    else (if d <= directories[0] then [] else [directories[0]]) + NotUnder(directories[1..], d)
  }

  /** The directories once `d` has joined them: it replaces those under it, or else the first one
      when there is no room. */
  function Joined(directories: seq<string>, d: string): seq<string> {
    if Covers(directories, d) then directories
    else
      var kept := NotUnder(directories, d);
      (if |kept| >= MAX_UPFRONT_DIRECTORIES then kept[1..] else kept) + [d]
  }

  /** `d` can only join by pushing out a directory that has nothing to do with it. */
  predicate PushesOut(directories: seq<string>, d: string) {
    && |directories| >= MAX_UPFRONT_DIRECTORIES
    && forall i | 0 <= i < |directories| :: !(directories[i] <= d) && !(d <= directories[i])
  }

  lemma {:induction false} NotUnderIsSublist(directories: seq<string>, d: string)
    ensures |NotUnder(directories, d)| <= |directories|
    ensures forall x :: x in NotUnder(directories, d) <==> x in directories && !(d <= x)
  {
    if directories != [] {
      assert directories == [directories[0]] + directories[1..];
      NotUnderIsSublist(directories[1..], d);
    }
  }

  lemma PrefixFreeTail(directories: seq<string>)
    requires PrefixFree(directories) && directories != []
    ensures PrefixFree(directories[1..])
    ensures forall x | x in directories[1..] :: !(directories[0] <= x) && !(x <= directories[0])
  {
    var rest := directories[1..];
    assert forall i | 0 <= i < |rest| :: rest[i] == directories[i + 1];
  }

  lemma PrefixFreeCons(d: string, directories: seq<string>)
    requires PrefixFree(directories)
    requires forall x | x in directories :: !(d <= x) && !(x <= d)
    ensures PrefixFree([d] + directories)
  {
    var all := [d] + directories;
    assert forall i | 0 < i < |all| :: all[i] == directories[i - 1] && all[i] in directories;
  }

  lemma PrefixFreeSnoc(directories: seq<string>, d: string)
    requires PrefixFree(directories)
    requires forall x | x in directories :: !(d <= x) && !(x <= d)
    ensures PrefixFree(directories + [d])
  {
    var all := directories + [d];
    assert forall i | 0 <= i < |directories| :: all[i] == directories[i] && all[i] in directories;
  }

  lemma {:induction false} NotUnderPrefixFree(directories: seq<string>, d: string)
    requires PrefixFree(directories)
    ensures PrefixFree(NotUnder(directories, d))
  {
    hide PrefixFree;
    if directories != [] {
      var rest := directories[1..];
      PrefixFreeTail(directories);
      NotUnderPrefixFree(rest, d);
      NotUnderIsSublist(rest, d);
      if d <= directories[0] {
        assert NotUnder(directories, d) == NotUnder(rest, d);
      } else {
        PrefixFreeCons(directories[0], NotUnder(rest, d));
      }
    } else {
      assert NotUnder(directories, d) == directories;
    }
  }

  lemma {:induction false} NotUnderKeepsAll(directories: seq<string>, d: string)
    ensures |NotUnder(directories, d)| == |directories|
            <==> forall i | 0 <= i < |directories| :: !(d <= directories[i])
    ensures |NotUnder(directories, d)| == |directories| ==> NotUnder(directories, d) == directories
  {
    if directories != [] {
      NotUnderKeepsAll(directories[1..], d);
      NotUnderIsSublist(directories[1..], d);
      assert directories == [directories[0]] + directories[1..];
    }
  }

  lemma CoversSlice(directories: seq<string>, d: string, path: string)
    ensures Covers(directories + [d], path) <==> Covers(directories, path) || d <= path
  {
    var all := directories + [d];
    assert all[|directories|] == d;
    if Covers(directories, path) {
      var i :| 0 <= i < |directories| && directories[i] <= path;
      assert all[i] <= path;
    }
  }

  /** Leaving out what is under `d` loses nothing that `d` does not cover. */
  lemma NotUnderCovers(directories: seq<string>, d: string, path: string)
    requires Covers(directories, path)
    ensures Covers(NotUnder(directories, d), path) || d <= path
  {
    var i :| 0 <= i < |directories| && directories[i] <= path;
    NotUnderIsSublist(directories, d);
    if !(d <= directories[i]) {
      assert directories[i] in NotUnder(directories, d);
    }
  }

  lemma NotUnderCoversNoMore(directories: seq<string>, d: string, path: string)
    requires Covers(NotUnder(directories, d), path)
    ensures Covers(directories, path)
  {
    NotUnderIsSublist(directories, d);
    var kept := NotUnder(directories, d);
    var i :| 0 <= i < |kept| && kept[i] <= path;
    assert kept[i] in directories;
  }

  lemma JoinedPrefixFree(directories: seq<string>, d: string)
    requires PrefixFree(directories) && |directories| <= MAX_UPFRONT_DIRECTORIES
    ensures PrefixFree(Joined(directories, d)) && |Joined(directories, d)| <= MAX_UPFRONT_DIRECTORIES
    ensures forall x | x in Joined(directories, d) :: x in directories || x == d
  {
    hide PrefixFree, NotUnder, Covers;
    if !Covers(directories, d) {
      var kept := NotUnder(directories, d);
      NotUnderIsSublist(directories, d);
      NotUnderPrefixFree(directories, d);
      NotCovered(directories, d);
      var room := if |kept| >= MAX_UPFRONT_DIRECTORIES then kept[1..] else kept;
      if |kept| >= MAX_UPFRONT_DIRECTORIES {
        PrefixFreeTail(kept);
      }
      assert forall x | x in room :: x in kept;
      PrefixFreeSnoc(room, d);
    }
  }

  /** What the directories cover once `d` has joined: everything at or under `d`, and all they
      covered before, less what only the first of them covered if `d` pushes it out. */
  lemma JoinedCovers(directories: seq<string>, d: string, path: string)
    requires |directories| <= MAX_UPFRONT_DIRECTORIES
    ensures Covers(Joined(directories, d), path)
            <==> d <= path || Covers(if PushesOut(directories, d) then directories[1..] else directories, path)
  {
    hide NotUnder, Covers;
    if Covers(directories, d) {
      CoveredAlready(directories, d, path);
    } else {
      NotCovered(directories, d);
      var kept := NotUnder(directories, d);
      NotUnderIsSublist(directories, d);
      NotUnderKeepsAll(directories, d);
      if |kept| >= MAX_UPFRONT_DIRECTORIES {
        CoversSlice(kept[1..], d, path);
      } else {
        CoversSlice(kept, d, path);
        if Covers(directories, path) {
          NotUnderCovers(directories, d, path);
        }
        if Covers(kept, path) {
          NotUnderCoversNoMore(directories, d, path);
        }
      }
    }
  }

  lemma CoveredAlready(directories: seq<string>, d: string, path: string)
    requires Covers(directories, d)
    ensures !PushesOut(directories, d) && (d <= path ==> Covers(directories, path))
  {
  }

  lemma NotCovered(directories: seq<string>, d: string)
    requires !Covers(directories, d)
    ensures forall i | 0 <= i < |directories| :: !(directories[i] <= d)
  {
  }

  // ----- Operations -------------------------------------------------------------------------

  predicate IsOldest(entries: Entries, s: ProtectionSpace) {
    s in entries && forall t | t in entries :: entries[s].stamp <= entries[t].stamp
  }

  lemma OldestExists(entries: Entries)
    requires |entries| > 0
    ensures exists s :: IsOldest(entries, s)
  {
    var stamps := map s | s in entries :: entries[s].stamp;
    assert stamps.Keys == entries.Keys;
    LeastExists(stamps);
    var s :| s in stamps && forall t | t in stamps :: stamps[s] <= stamps[t];
    assert forall t | t in entries :: t in stamps;
    assert IsOldest(entries, s);
  }

  ghost function Oldest(entries: Entries): (s: ProtectionSpace)
    requires |entries| > 0
    ensures IsOldest(entries, s)
  {
    OldestExists(entries);
    var s :| IsOldest(entries, s);
    s
  }

  /** The entries with room for `space`. */
  ghost function Roomy(entries: Entries, space: ProtectionSpace): Entries {
    if |entries| >= MAX_CREDENTIAL_ENTRIES && space !in entries then entries - {Oldest(entries)} else entries
  }

  /** The directories new credentials for a space start with: the old ones if nothing changed. */
  function KeptDirectories(entries: Entries, space: ProtectionSpace, credentials: Credentials): seq<string> {
    if space in entries && entries[space].credentials == credentials then entries[space].directories else []
  }

  ghost function Stored(m: Memory, space: ProtectionSpace, credentials: Credentials): Memory {
    var room := Roomy(m.entries, space);
    var stored := StoredCredentials(credentials, m.clock, KeptDirectories(room, space, credentials));
    Memory(room[space := stored], m.clock + 1)
  }

  /** Only a `Basic` answer to a server can be replayed upfront. */
  predicate Replayable(space: ProtectionSpace) {
    space.target == Server && space.scheme == Basic
  }

  function Accepted(m: Memory, space: ProtectionSpace, path: string): Memory {
    if Replayable(space) && space in m.entries then
      var stored := m.entries[space];
      m.(entries := m.entries[space := stored.(directories := Joined(stored.directories, DirectoryOf(path)))])
    else m
  }

  datatype Op =
    | Store(space: ProtectionSpace, credentials: Credentials)
    | Forget(space: ProtectionSpace)
    | Accept(space: ProtectionSpace, path: string)
    | Clear

  ghost function Apply(m: Memory, op: Op): Memory {
    match op
    case Store(space, credentials) => Stored(m, space, credentials)
    case Forget(space) => m.(entries := m.entries - {space})
    case Accept(space, path) => Accepted(m, space, path)
    case Clear => m.(entries := map[])
  }

  ghost function Run(ops: seq<Op>): Memory {
    if ops == [] then EMPTY else Apply(Run(ops[..|ops| - 1]), ops[|ops| - 1])
  }

  // ----- What every history keeps -----------------------------------------------------------

  predicate GoodDirectories(stored: StoredCredentials) {
    |stored.directories| <= MAX_UPFRONT_DIRECTORIES && PrefixFree(stored.directories)
  }

  ghost predicate WellFormed(m: Memory) {
    && |m.entries| <= MAX_CREDENTIAL_ENTRIES
    && (forall s | s in m.entries :: m.entries[s].stamp < m.clock && GoodDirectories(m.entries[s]))
    && (forall s, t | s in m.entries && t in m.entries && s != t :: m.entries[s].stamp != m.entries[t].stamp)
  }

  lemma RoomyHasRoom(m: Memory, space: ProtectionSpace)
    requires WellFormed(m)
    ensures var room := Roomy(m.entries, space);
            && (space in room || |room| < MAX_CREDENTIAL_ENTRIES) && |room| <= MAX_CREDENTIAL_ENTRIES
            && (space in m.entries <==> space in room)
            && forall s | s in room :: s in m.entries && room[s] == m.entries[s]
  {
    hide GoodDirectories;
    if |m.entries| >= MAX_CREDENTIAL_ENTRIES && space !in m.entries {
      RemovedSize(m.entries, Oldest(m.entries));
    }
  }

  lemma StoredWellFormed(m: Memory, space: ProtectionSpace, credentials: Credentials)
    requires WellFormed(m)
    ensures WellFormed(Stored(m, space, credentials))
  {
    hide GoodDirectories, Roomy;
    RoomyHasRoom(m, space);
    var room := Roomy(m.entries, space);
    var stored := StoredCredentials(credentials, m.clock, KeptDirectories(room, space, credentials));
    InsertedSize(room, space, stored);
    NoDirectoriesAreGood(credentials, m.clock);
    if space in room {
      SameDirectoriesAreGood(room[space], credentials, m.clock);
    }
    assert GoodDirectories(stored);
  }

  lemma SameDirectoriesAreGood(before: StoredCredentials, credentials: Credentials, stamp: nat)
    requires GoodDirectories(before)
    ensures GoodDirectories(StoredCredentials(credentials, stamp, before.directories))
  {
  }

  lemma NoDirectoriesAreGood(credentials: Credentials, stamp: nat)
    ensures GoodDirectories(StoredCredentials(credentials, stamp, []))
  {
  }

  lemma AcceptedWellFormed(m: Memory, space: ProtectionSpace, path: string)
    requires WellFormed(m)
    ensures WellFormed(Accepted(m, space, path))
  {
    hide Joined, PrefixFree;
    if space in m.entries {
      JoinedPrefixFree(m.entries[space].directories, DirectoryOf(path));
      var stored := m.entries[space];
      InsertedSize(m.entries, space, stored.(directories := Joined(stored.directories, DirectoryOf(path))));
    }
  }

  lemma ApplyWellFormed(m: Memory, op: Op)
    requires WellFormed(m)
    ensures WellFormed(Apply(m, op))
  {
    hide Stored, Accepted, GoodDirectories;
    match op {
      case Store(space, credentials) => StoredWellFormed(m, space, credentials);
      case Forget(space) => RemovedSize(m.entries, space);
      case Accept(space, path) => AcceptedWellFormed(m, space, path);
      case Clear =>
    }
  }

  /** Whatever was called, a store holds at most 256 spaces, stored at different times, each with at
      most 8 directories of which none covers another. */
  lemma {:induction false} EveryRunIsWellFormed(ops: seq<Op>)
    ensures WellFormed(Run(ops))
  {
    hide WellFormed, Apply;
    if ops == [] {
      EmptyWellFormed();
    } else {
      EveryRunIsWellFormed(ops[..|ops| - 1]);
      ApplyWellFormed(Run(ops[..|ops| - 1]), ops[|ops| - 1]);
    }
  }

  lemma EmptyWellFormed()
    ensures WellFormed(EMPTY)
  {
  }

  // ----- Who is forgotten -------------------------------------------------------------------

  /** When `space` was last stored in the history; negative if never. */
  function LastStore(ops: seq<Op>, space: ProtectionSpace): (n: int)
    ensures -1 <= n < |ops|
  {
    if ops == [] then -1
    else if ops[|ops| - 1].Store? && ops[|ops| - 1].space == space then |ops| - 1
    else LastStore(ops[..|ops| - 1], space)
  }

  ghost predicate StampsFollowStores(ops: seq<Op>, entries: Entries) {
    forall s, t | s in entries && t in entries ::
      entries[s].stamp < entries[t].stamp <==> LastStore(ops, s) < LastStore(ops, t)
  }

  lemma {:induction false} StampsTellStoreOrder(ops: seq<Op>)
    ensures StampsFollowStores(ops, Run(ops).entries)
  {
    hide Apply, WellFormed, LastStore;
    if ops != [] {
      var front, op := ops[..|ops| - 1], ops[|ops| - 1];
      var after := Run(ops).entries;
      StampsTellStoreOrder(front);
      EveryRunIsWellFormed(front);
      forall s, t | s in after && t in after
        ensures after[s].stamp < after[t].stamp <==> LastStore(ops, s) < LastStore(ops, t)
      {
        StampStep(front, op, s);
        StampStep(front, op, t);
        assert ops == front + [op];
      }
    }
  }

  /** One call gives the space it stores the newest stamp and leaves the others theirs. */
  lemma StampStep(front: seq<Op>, op: Op, s: ProtectionSpace)
    requires WellFormed(Run(front)) && s in Apply(Run(front), op).entries
    ensures var before, after := Run(front), Apply(Run(front), op).entries;
            if op.Store? && op.space == s then
              after[s].stamp == before.clock && LastStore(front + [op], s) == |front|
            else
              && s in before.entries && after[s].stamp == before.entries[s].stamp < before.clock
              && LastStore(front + [op], s) == LastStore(front, s)
  {
    hide Run, Joined, GoodDirectories, KeptDirectories;
    assert (front + [op])[..|front|] == front;
  }

  /** A full store makes room for a new space by forgetting exactly the one stored longest ago. */
  lemma FullStoreForgetsTheOldest(ops: seq<Op>, space: ProtectionSpace, credentials: Credentials)
    requires |Run(ops).entries| == MAX_CREDENTIAL_ENTRIES && space !in Run(ops).entries
    ensures var before, after := Run(ops).entries, Run(ops + [Store(space, credentials)]).entries;
            exists victim | victim in before ::
              && (forall s | s in before && s != victim :: LastStore(ops, victim) < LastStore(ops, s))
              && after == (before - {victim})[space := StoredCredentials(credentials, Run(ops).clock, [])]
  {
    hide Run, LastStore, GoodDirectories;
    EveryRunIsWellFormed(ops);
    StampsTellStoreOrder(ops);
    RunSnoc(ops, Store(space, credentials));
    var before := Run(ops).entries;
    var victim := Oldest(before);
    forall s | s in before && s != victim
      ensures LastStore(ops, victim) < LastStore(ops, s)
    {
      assert before[victim].stamp < before[s].stamp;
    }
  }

  lemma RunSnoc(ops: seq<Op>, op: Op)
    ensures Run(ops + [op]) == Apply(Run(ops), op)
  {
    assert (ops + [op])[..|ops|] == ops;
  }

  // ----- What is remembered was accepted ----------------------------------------------------

  /** The credentials held for `space` after the first `n` calls. */
  ghost function HeldAfter(ops: seq<Op>, n: nat, space: ProtectionSpace): Option<Credentials>
    requires n <= |ops|
  {
    if space in Run(ops[..n]).entries then Some(Run(ops[..n]).entries[space].credentials) else None
  }

  /** Call `i` accepted the credentials held for `space` in directory `d`, and they are held since. */
  ghost predicate AcceptedSince(ops: seq<Op>, i: nat, space: ProtectionSpace, d: string)
  {
    && i < |ops| && ops[i].Accept? && ops[i].space == space && DirectoryOf(ops[i].path) == d
    && HeldAfter(ops, |ops|, space).Some?
    && forall n | i <= n <= |ops| :: HeldAfter(ops, n, space) == HeldAfter(ops, |ops|, space)
  }

  lemma AcceptedSinceSnoc(front: seq<Op>, op: Op, i: nat, space: ProtectionSpace, d: string)
    requires AcceptedSince(front, i, space, d) && space in Run(front).entries
    requires space in Apply(Run(front), op).entries
    requires Apply(Run(front), op).entries[space].credentials == Run(front).entries[space].credentials
    ensures AcceptedSince(front + [op], i, space, d)
  {
    hide Run, Apply, DirectoryOf;
    var ops := front + [op];
    RunSnoc(front, op);
    assert ops[..|ops|] == ops && front[..|front|] == front;
    forall n | i <= n <= |ops|
      ensures HeldAfter(ops, n, space) == HeldAfter(ops, |ops|, space)
    {
      if n < |ops| {
        assert ops[..n] == front[..n];
        assert HeldAfter(front, n, space) == HeldAfter(front, |front|, space);
      }
    }
  }

  /** A directory held after a call was held before with the same credentials, or was just accepted. */
  lemma DirectoryStep(m: Memory, op: Op, space: ProtectionSpace, d: string)
    requires WellFormed(m)
    requires space in Apply(m, op).entries && d in Apply(m, op).entries[space].directories
    ensures && space in m.entries && Apply(m, op).entries[space].credentials == m.entries[space].credentials
            && (d in m.entries[space].directories
                || (op.Accept? && op.space == space && Replayable(space) && DirectoryOf(op.path) == d))
  {
    hide Joined, PrefixFree, DirectoryOf;
    if op.Accept? && op.space == space && Replayable(space) {
      JoinedPrefixFree(m.entries[space].directories, DirectoryOf(op.path));
    }
  }

  lemma JustAccepted(front: seq<Op>, op: Op, space: ProtectionSpace)
    requires op.Accept? && op.space == space && space in Run(front).entries
    ensures AcceptedSince(front + [op], |front|, space, DirectoryOf(op.path))
  {
    hide Run, Joined, DirectoryOf;
    var ops := front + [op];
    RunSnoc(front, op);
    assert ops[..|front|] == front && ops[..|ops|] == ops;
    assert HeldAfter(ops, |front|, space) == HeldAfter(ops, |ops|, space);
  }

  /** Every directory remembered for a space is one where the very credentials held for it were
      accepted, and they have been held without a break since. */
  lemma {:induction false} RememberedDirectoryWasAccepted(ops: seq<Op>, space: ProtectionSpace, d: string)
    requires space in Run(ops).entries && d in Run(ops).entries[space].directories
    ensures Replayable(space) && exists i :: AcceptedSince(ops, i, space, d)
  {
    hide Apply, AcceptedSince, Replayable;
    var front, op := ops[..|ops| - 1], ops[|ops| - 1];
    assert ops == front + [op];
    EveryRunIsWellFormed(front);
    DirectoryStep(Run(front), op, space, d);
    if d in Run(front).entries[space].directories {
      RememberedDirectoryWasAccepted(front, space, d);
      var i :| AcceptedSince(front, i, space, d);
      AcceptedSinceSnoc(front, op, i, space, d);
    } else {
      JustAccepted(front, op, space);
    }
  }

  // ----- Which directory is pushed out ------------------------------------------------------

  /** The directories held for a space. */
  function DirectoriesOf(m: Memory, space: ProtectionSpace): seq<string> {
    if space in m.entries then m.entries[space].directories else []
  }

  /** The call since which the directory has been held without a break. */
  ghost function HeldSince(ops: seq<Op>, space: ProtectionSpace, d: string): (n: nat)
    ensures n <= |ops|
  {
    if ops == [] || d !in DirectoriesOf(Run(ops[..|ops| - 1]), space) then |ops|
    else HeldSince(ops[..|ops| - 1], space, d)
  }

  /** What stands in order in `after` stood in that order in `before`, but for a last one that is new. */
  ghost predicate KeepsOrder(before: seq<string>, after: seq<string>) {
    forall i, j | 0 <= i < j < |after| ::
      || InOrder(before, after[i], after[j])
      || (after[i] in before && after[j] !in before)
  }

  ghost predicate InOrder(directories: seq<string>, a: string, b: string) {
    exists i, j | 0 <= i < j < |directories| :: directories[i] == a && directories[j] == b
  }

  lemma {:induction false} NotUnderKeepsOrder(directories: seq<string>, d: string, i: nat, j: nat)
    requires i < j < |NotUnder(directories, d)|
    ensures InOrder(directories, NotUnder(directories, d)[i], NotUnder(directories, d)[j])
  {
    var kept, rest := NotUnder(directories, d), NotUnder(directories[1..], d);
    var shift := if d <= directories[0] then 0 else 1;
    assert kept[j] == rest[j - shift];
    if i < shift {
      NotUnderIsSublist(directories[1..], d);
      assert rest[j - shift] in directories[1..];
      var l :| 0 <= l < |directories| - 1 && directories[1..][l] == kept[j];
      assert directories[l + 1] == kept[j] && directories[0] == kept[i];
    } else {
      assert kept[i] == rest[i - shift];
      NotUnderKeepsOrder(directories[1..], d, i - shift, j - shift);
      var k, l :| 0 <= k < l < |directories| - 1 && directories[1..][k] == kept[i] && directories[1..][l] == kept[j];
      assert directories[k + 1] == kept[i] && directories[l + 1] == kept[j];
    }
  }

  lemma SameKeepsOrder(directories: seq<string>)
    ensures KeepsOrder(directories, directories) && KeepsOrder(directories, [])
  {
  }

  lemma JoinedKeepsOrder(directories: seq<string>, d: string)
    ensures KeepsOrder(directories, Joined(directories, d))
  {
    hide NotUnder, InOrder;
    if Covers(directories, d) {
      SameKeepsOrder(directories);
    } else {
      var kept, joined := NotUnder(directories, d), Joined(directories, d);
      NotUnderIsSublist(directories, d);
      var cut := if |kept| >= MAX_UPFRONT_DIRECTORIES then 1 else 0;
      assert joined == kept[cut..] + [d];
      assert d !in directories by {
        NotCovered(directories, d);
      }
      forall i, j | 0 <= i < j < |joined|
        ensures InOrder(directories, joined[i], joined[j]) || (joined[i] in directories && joined[j] !in directories)
      {
        assert joined[i] == kept[i + cut] && kept[i + cut] in kept;
        if j < |joined| - 1 {
          assert joined[j] == kept[j + cut];
          NotUnderKeepsOrder(directories, d, i + cut, j + cut);
        }
      }
    }
  }

  lemma CallKeepsOrder(m: Memory, op: Op, space: ProtectionSpace)
    requires WellFormed(m)
    ensures KeepsOrder(DirectoriesOf(m, space), DirectoriesOf(Apply(m, op), space))
  {
    hide WellFormed, Joined, DirectoryOf, KeepsOrder, Roomy;
    var before := DirectoriesOf(m, space);
    SameKeepsOrder(before);
    match op {
      case Store(s, _) => RoomyHasRoom(m, s);
      case Accept(s, path) =>
        if s == space {
          JoinedKeepsOrder(before, DirectoryOf(path));
        }
      case _ =>
    }
  }

  /** The directories of a space stand in the order in which they came to be held. */
  lemma {:induction false} DirectoriesStandInOrder(ops: seq<Op>, space: ProtectionSpace, i: nat, j: nat)
    requires i < j < |DirectoriesOf(Run(ops), space)|
    ensures var directories := DirectoriesOf(Run(ops), space);
            HeldSince(ops, space, directories[i]) < HeldSince(ops, space, directories[j])
  {
    hide Apply, WellFormed, DirectoriesOf;
    if ops == [] {
      NoneHeldAtFirst(space);
    } else {
      var front, op := ops[..|ops| - 1], ops[|ops| - 1];
      var before, after := DirectoriesOf(Run(front), space), DirectoriesOf(Run(ops), space);
      EveryRunIsWellFormed(front);
      CallKeepsOrder(Run(front), op, space);
      if InOrder(before, after[i], after[j]) {
        var k, l :| 0 <= k < l < |before| && before[k] == after[i] && before[l] == after[j];
        DirectoriesStandInOrder(front, space, k, l);
      }
    }
  }

  lemma NoneHeldAtFirst(space: ProtectionSpace)
    ensures DirectoriesOf(EMPTY, space) == []
  {
  }

  /** When a directory is pushed out to make room for another, it is the one held for longest. */
  lemma LongestHeldIsPushedOut(ops: seq<Op>, space: ProtectionSpace, path: string)
    requires Replayable(space) && PushesOut(DirectoriesOf(Run(ops), space), DirectoryOf(path))
    ensures var before := DirectoriesOf(Run(ops), space);
            && DirectoriesOf(Run(ops + [Accept(space, path)]), space) == before[1..] + [DirectoryOf(path)]
            && forall i | 0 < i < |before| :: HeldSince(ops, space, before[0]) < HeldSince(ops, space, before[i])
  {
    hide Run, DirectoryOf, NotUnder, HeldSince;
    var before, d := DirectoriesOf(Run(ops), space), DirectoryOf(path);
    RunSnoc(ops, Accept(space, path));
    NotUnderKeepsAll(before, d);
    assert !Covers(before, d);
    forall i | 0 < i < |before|
      ensures HeldSince(ops, space, before[0]) < HeldSince(ops, space, before[i])
    {
      DirectoriesStandInOrder(ops, space, 0, i);
    }
  }

  // ----- Sending upfront --------------------------------------------------------------------

  predicate SentTo(entries: Entries, origin: string, space: ProtectionSpace) {
    && space in entries && Replayable(space)
    && space.origin == Some(origin) && entries[space].credentials.UserPassword?
  }

  /** `space`'s credentials may go to this path, for it is at or under `directory`. */
  predicate Offered(entries: Entries, origin: string, path: string, space: ProtectionSpace, directory: string) {
    SentTo(entries, origin, space) && directory in entries[space].directories && directory <= path
  }

  /** The length of the deepest directory that covers the path. */
  function Depth(directories: seq<string>, path: string): (r: Option<nat>)
    ensures r.None? ==> !Covers(directories, path)
    ensures r.Some? ==> exists d | d in directories :: d <= path && |d| == r.value
    ensures r.Some? ==> forall d | d in directories && d <= path :: |d| <= r.value
  {
    if directories == [] then None
    else
      assert directories == [directories[0]] + directories[1..];
      var rest := Depth(directories[1..], path);
      if directories[0] <= path && (rest.None? || rest.value < |directories[0]|) then Some(|directories[0]|) else rest
  }

  /** `upfront_for`: the space with the deepest directory that covers the path. */
  method UpfrontFor(entries: Entries, origin: string, path: string)
    returns (r: Option<(ProtectionSpace, Credentials)>)
    ensures r.None? ==> forall space, d :: !Offered(entries, origin, path, space, d)
    ensures r.Some? ==>
              exists d ::
                && Offered(entries, origin, path, r.value.0, d) && r.value.1 == entries[r.value.0].credentials
                && forall space, e | Offered(entries, origin, path, space, e) :: |e| <= |d|
    ensures r.Some? ==>
              var (space, credentials) := r.value;
              && space.target == Server && space.scheme == Basic && space.origin == Some(origin)
              && credentials.UserPassword?
    ensures r.None? ==>
              forall space, d |
                && space in entries && d in entries[space].directories
                && space.target == Server && space.scheme == Basic && space.origin == Some(origin)
                && entries[space].credentials.UserPassword? ::
                !(d <= path)
  {
    var left := entries.Keys;
    var best: Option<(nat, ProtectionSpace)> := None;
    while left != {}
      invariant left <= entries.Keys
      invariant best.None? ==> forall space, d | space !in left :: !Offered(entries, origin, path, space, d)
      invariant best.Some? ==> exists d :: Offered(entries, origin, path, best.value.1, d) && |d| == best.value.0
      invariant best.Some? ==>
                  forall space, d | space !in left && Offered(entries, origin, path, space, d) :: |d| <= best.value.0
      decreases |left|
    {
      var space :| space in left;
      left := left - {space};
      if SentTo(entries, origin, space) {
        var depth := Depth(entries[space].directories, path);
        DepthOffers(entries, origin, path, space);
        if depth.Some? && (best.None? || best.value.0 <= depth.value) {
          best := Some((depth.value, space));
        }
      }
    }
    if best.None? {
      forall space, d | space in entries && d in entries[space].directories && SentTo(entries, origin, space)
        ensures !(d <= path)
      {
        assert !Offered(entries, origin, path, space, d);
      }
      return None;
    }
    return Some((best.value.1, entries[best.value.1].credentials));
  }

  lemma DepthOffers(entries: Entries, origin: string, path: string, space: ProtectionSpace)
    requires SentTo(entries, origin, space)
    ensures var depth := Depth(entries[space].directories, path);
            && (depth.None? ==> forall d :: !Offered(entries, origin, path, space, d))
            && (depth.Some? ==>
                  && (exists d :: Offered(entries, origin, path, space, d) && |d| == depth.value)
                  && forall d | Offered(entries, origin, path, space, d) :: |d| <= depth.value)
  {
  }

  // ----- The store --------------------------------------------------------------------------

  class InMemoryCredentialStore {
    var entries: Entries
    var clock: nat

    ghost function View(): Memory
      reads this
    {
      Memory(entries, clock)
    }

    ghost predicate Valid()
      reads this
    {
      WellFormed(View())
    }

    constructor ()
      ensures Valid() && View() == EMPTY
    {
      entries, clock := map[], 0;
    }

    method CredentialsFor(space: ProtectionSpace) returns (r: Option<Credentials>)
      ensures r == if space in entries then Some(entries[space].credentials) else None
    {
      r := if space in entries then Some(entries[space].credentials) else None;
    }

    method Store(space: ProtectionSpace, credentials: Credentials)
      requires Valid()
      modifies this
      ensures Valid() && View() == Stored(old(View()), space, credentials)
    {
      hide WellFormed, PrefixFree;
      StoredWellFormed(View(), space, credentials);
      var stamp := clock;
      clock := clock + 1;
      if |entries| >= MAX_CREDENTIAL_ENTRIES && space !in entries {
        OldestExists(entries);
        var oldest :| IsOldest(entries, oldest);
        OldestIsUnique(old(View()), oldest);
        entries := entries - {oldest};
      }
      var directories := KeptDirectories(entries, space, credentials);
      entries := (entries - {space})[space := StoredCredentials(credentials, stamp, directories)];
      assert entries == Stored(old(View()), space, credentials).entries;
    }

    method Forget(space: ProtectionSpace)
      requires Valid()
      modifies this
      ensures Valid() && View() == old(View()).(entries := old(entries) - {space})
    {
      ApplyWellFormed(View(), Op.Forget(space));
      entries := entries - {space};
    }

    method AcceptedAt(space: ProtectionSpace, path: string)
      requires Valid()
      modifies this
      ensures Valid() && View() == Accepted(old(View()), space, path)
    {
      hide WellFormed, NotUnder, Covers, DirectoryOf;
      AcceptedWellFormed(View(), space, path);
      if space.target != Server || space.scheme != Basic {
        return;
      }
      var directory := DirectoryOf(path);
      if space !in entries {
        return;
      }
      var stored := entries[space];
      if Covers(stored.directories, directory) {
        assert entries[space := stored] == entries;
        return;
      }
      var directories := NotUnder(stored.directories, directory);
      if |directories| >= MAX_UPFRONT_DIRECTORIES {
        directories := directories[1..];
      }
      entries := entries[space := stored.(directories := directories + [directory])];
    }

    method Clear()
      requires Valid()
      modifies this
      ensures Valid() && View() == old(View()).(entries := map[])
    {
      ApplyWellFormed(View(), Op.Clear);
      entries := map[];
    }
  }

  lemma OldestIsUnique(m: Memory, oldest: ProtectionSpace)
    requires WellFormed(m) && IsOldest(m.entries, oldest)
    ensures |m.entries| > 0 && Oldest(m.entries) == oldest
  {
    assert m.entries.Keys != {};
  }

  /** Accepting credentials at a path touches the directories of their space alone, which then cover
      everything under the directory of the path, and all they covered before but for what the bound
      pushes out. */
  lemma AcceptanceIsRemembered(m: Memory, space: ProtectionSpace, path: string, other: string)
    requires WellFormed(m) && Replayable(space) && space in m.entries
    ensures var after := Accepted(m, space, path);
            && after.entries.Keys == m.entries.Keys && after.clock == m.clock
            && (forall s | s in m.entries && s != space :: after.entries[s] == m.entries[s])
            && after.entries[space].credentials == m.entries[space].credentials
            && after.entries[space].stamp == m.entries[space].stamp
            && var directories := m.entries[space].directories;
               Covers(after.entries[space].directories, other)
               <==> || DirectoryOf(path) <= other
                    || Covers(if PushesOut(directories, DirectoryOf(path)) then directories[1..] else directories, other)
  {
    hide Joined, Covers, DirectoryOf, PushesOut;
    JoinedCovers(m.entries[space].directories, DirectoryOf(path), other);
  }

  /** Some directory has the space's credentials sent upfront with a request for the path. */
  ghost predicate OfferedAt(m: Memory, origin: string, path: string, space: ProtectionSpace) {
    exists d :: Offered(m.entries, origin, path, space, d)
  }

  lemma OfferedMeansCovered(m: Memory, origin: string, path: string, space: ProtectionSpace)
    ensures OfferedAt(m, origin, path, space)
            <==> SentTo(m.entries, origin, space) && Covers(m.entries[space].directories, path)
  {
    if SentTo(m.entries, origin, space) && Covers(m.entries[space].directories, path) {
      var directories := m.entries[space].directories;
      var i :| 0 <= i < |directories| && directories[i] <= path;
      assert Offered(m.entries, origin, path, space, directories[i]);
    }
  }

  /** Right after credentials have been accepted at a path, they are offered for every path under its
      directory, if they are a user and password of that origin. */
  lemma AcceptedIsOffered(m: Memory, space: ProtectionSpace, path: string, origin: string, other: string)
    requires WellFormed(m) && SentTo(m.entries, origin, space) && DirectoryOf(path) <= other
    ensures OfferedAt(Accepted(m, space, path), origin, other, space)
  {
    hide Joined, DirectoryOf, PushesOut, Covers, OfferedAt;
    AcceptanceIsRemembered(m, space, path, other);
    OfferedMeansCovered(Accepted(m, space, path), origin, other, space);
  }

  /** The call leaves the space its credentials, and does not push out the one directory that covers
      the path. */
  ghost predicate KeepsOffer(m: Memory, op: Op, space: ProtectionSpace, path: string) {
    && space in m.entries && space in Apply(m, op).entries
    && Apply(m, op).entries[space].credentials == m.entries[space].credentials
    && (op.Accept? && op.space == space && PushesOut(m.entries[space].directories, DirectoryOf(op.path)) ==>
          DirectoryOf(op.path) <= path || Covers(m.entries[space].directories[1..], path))
  }

  lemma OtherCallKeepsDirectories(m: Memory, op: Op, space: ProtectionSpace)
    requires WellFormed(m) && space in m.entries && space in Apply(m, op).entries
    requires !(op.Accept? && op.space == space && Replayable(space))
    ensures var before, after := m.entries[space], Apply(m, op).entries[space];
            after.directories == if after.credentials == before.credentials then before.directories else []
  {
    hide WellFormed, Joined, DirectoryOf;
  }

  /** What is offered stays offered by a call exactly when the call keeps it. */
  lemma StepKeepsOfferIff(m: Memory, op: Op, origin: string, path: string, space: ProtectionSpace)
    requires WellFormed(m) && OfferedAt(m, origin, path, space)
    ensures OfferedAt(Apply(m, op), origin, path, space) <==> KeepsOffer(m, op, space, path)
  {
    hide WellFormed, Joined, DirectoryOf, PushesOut, Covers, OfferedAt, Stored;
    var t := Apply(m, op);
    OfferedMeansCovered(m, origin, path, space);
    OfferedMeansCovered(t, origin, path, space);
    if space in t.entries {
      if op.Accept? && op.space == space {
        AcceptanceIsRemembered(m, space, op.path, path);
      } else {
        OtherCallKeepsDirectories(m, op, space);
        NothingCovers(path);
      }
    }
  }

  lemma NothingCovers(path: string)
    ensures !Covers([], path)
  {
  }

  ghost predicate OfferedThroughout(m: Memory, ops: seq<Op>, origin: string, path: string, space: ProtectionSpace)
    decreases |ops|
  {
    && OfferedAt(m, origin, path, space)
    && (ops == [] || OfferedThroughout(Apply(m, ops[0]), ops[1..], origin, path, space))
  }

  ghost predicate KeptThroughout(m: Memory, ops: seq<Op>, space: ProtectionSpace, path: string)
    decreases |ops|
  {
    ops == [] || (KeepsOffer(m, ops[0], space, path) && KeptThroughout(Apply(m, ops[0]), ops[1..], space, path))
  }

  lemma {:induction false} OfferedWhileKept(
    m: Memory, ops: seq<Op>, origin: string, path: string, space: ProtectionSpace)
    requires WellFormed(m) && OfferedAt(m, origin, path, space)
    ensures OfferedThroughout(m, ops, origin, path, space) <==> KeptThroughout(m, ops, space, path)
    decreases |ops|
  {
    hide WellFormed, OfferedAt, KeepsOffer, Apply;
    if ops != [] {
      StepKeepsOfferIff(m, ops[0], origin, path, space);
      ApplyWellFormed(m, ops[0]);
      if KeepsOffer(m, ops[0], space, path) {
        OfferedWhileKept(Apply(m, ops[0]), ops[1..], origin, path, space);
      }
    }
  }

  /** Credentials accepted at a path are offered for every path under its directory through any calls
      that follow exactly as long as each leaves the space its credentials and does not push out the
      one directory that covers the path. */
  lemma AcceptedIsOfferedWhileKept(
    m: Memory, space: ProtectionSpace, path: string, origin: string, other: string, ops: seq<Op>)
    requires WellFormed(m) && SentTo(m.entries, origin, space) && DirectoryOf(path) <= other
    ensures OfferedThroughout(Accepted(m, space, path), ops, origin, other, space)
            <==> KeptThroughout(Accepted(m, space, path), ops, space, other)
  {
    hide WellFormed, OfferedAt, KeepsOffer, Apply, Accepted, DirectoryOf;
    AcceptedWellFormed(m, space, path);
    AcceptedIsOffered(m, space, path, origin, other);
    OfferedWhileKept(Accepted(m, space, path), ops, origin, other, space);
  }

  /** In particular, while no call changes the credentials or pushes a directory of the space out. */
  predicate Spares(m: Memory, op: Op, space: ProtectionSpace) {
    && space in m.entries
    && match op
       case Store(s, credentials) =>
         if s == space then credentials == m.entries[space].credentials
         else s in m.entries || |m.entries| < MAX_CREDENTIAL_ENTRIES
       case Forget(s) => s != space
       case Accept(s, path) => s == space ==> !PushesOut(m.entries[space].directories, DirectoryOf(path))
       case Clear => false
  }

  lemma SparingKeepsOffer(m: Memory, op: Op, space: ProtectionSpace, path: string)
    requires Spares(m, op, space)
    ensures KeepsOffer(m, op, space, path)
  {
    hide Joined, DirectoryOf, PushesOut, Covers;
  }

  function SingleDirectory(c: char): string {
    ['/', c, '/']
  }

  /** Eight directories side by side, and a store whose one space holds them. */
  function EightDirectories(): seq<string> {
    seq(8, i requires 0 <= i < 8 => SingleDirectory(('a' as int + i) as char))
  }

  function FullSpace(space: ProtectionSpace): Memory {
    Memory(map[space := StoredCredentials(UserPassword("u", "p"), 0, EightDirectories())], 1)
  }

  /** One acceptance more, elsewhere, and what only the first of the eight covered is no longer offered. */
  lemma NinthDirectoryEndsAnOffer(space: ProtectionSpace, origin: string)
    requires Replayable(space) && space.origin == Some(origin)
    ensures WellFormed(FullSpace(space)) && OfferedAt(FullSpace(space), origin, "/a/x", space)
    ensures !OfferedAt(Apply(FullSpace(space), Accept(space, "/i/x")), origin, "/a/x", space)
  {
    hide DirectoryOf, OfferedAt, Joined, Covers;
    var m, directories := FullSpace(space), EightDirectories();
    EightAreApart();
    assert GoodDirectories(m.entries[space]);
    assert SingleDirectory('a') <= "/a/x" && directories[0] == SingleDirectory('a');
    CoversBy(directories, 0, "/a/x");
    OfferedMeansCovered(m, origin, "/a/x", space);
    DirectoryOfSingle('i');
    assert SingleDirectory('i') + "x" == "/i/x";
    assert PushesOut(directories, SingleDirectory('i'));
    assert forall i | 0 <= i < 7 :: directories[1..][i] == directories[i + 1];
    NotCoveredBy(directories[1..], "/a/x");
    assert !(SingleDirectory('i') <= "/a/x") by {
      assert SingleDirectory('i')[1] == 'i' && "/a/x"[1] == 'a';
    }
    AcceptanceIsRemembered(m, space, "/i/x", "/a/x");
    OfferedMeansCovered(Apply(m, Accept(space, "/i/x")), origin, "/a/x", space);
  }

  lemma EightAreApart()
    ensures PrefixFree(EightDirectories())
    ensures forall i | 0 <= i < 8 ::
              && |EightDirectories()[i]| == 3 && EightDirectories()[i][1] as int == 'a' as int + i
              && !(EightDirectories()[i] <= SingleDirectory('i')) && !(SingleDirectory('i') <= EightDirectories()[i])
  {
    var directories := EightDirectories();
    forall i | 0 <= i < 8
      ensures |directories[i]| == 3 && directories[i][1] as int == 'a' as int + i
    {
      assert directories[i] == SingleDirectory(('a' as int + i) as char);
    }
    assert SingleDirectory('i')[1] as int == 'a' as int + 8;
  }

  lemma CoversBy(directories: seq<string>, i: nat, path: string)
    requires i < |directories| && directories[i] <= path
    ensures Covers(directories, path)
  {
  }

  lemma NotCoveredBy(directories: seq<string>, path: string)
    requires |path| > 1 && forall i | 0 <= i < |directories| :: |directories[i]| > 1 && directories[i][1] != path[1]
    ensures !Covers(directories, path)
  {
  }

  lemma DirectoryOfSingle(c: char)
    ensures DirectoryOf(SingleDirectory(c) + "x") == SingleDirectory(c)
  {
    var path := SingleDirectory(c) + "x";
    assert path[..|path| - 1] == SingleDirectory(c);
  }

  /** Forgetting the space ends the offer. */
  lemma ForgettingEndsTheOffer(m: Memory, origin: string, path: string, space: ProtectionSpace)
    ensures !OfferedAt(Apply(m, Forget(space)), origin, path, space)
  {
  }
}
