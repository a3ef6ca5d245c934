/** The host's admission of requests: one execution permit, a bounded queue, any interleaving. */
module Admission {

  const QUEUE_LIMIT: nat := 8

  type Request = nat

  /** Where a request is. `Counted` has incremented the counter to `seen` and not yet looked at
      it; `Refused` has looked and must take its increment back; `Granted` holds the permit it
      was parked for and must still take its increment back. */
  datatype Place =
    | Arriving
    | Barred
    | Counted(seen: int)
    | Refused
    | Parked
    | Granted
    | Running
    | Rejected
    | Finished

  datatype Host = Host(places: map<Request, Place>, waiters: int, permitFree: bool)

  predicate Initial(h: Host) {
    h.waiters == 0 && h.permitFree && forall r :: r in h.places ==> h.places[r] == Arriving
  }

  predicate Holds(p: Place) { p.Granted? || p.Running? }

  /** Between its increment of the counter and its decrement. */
  predicate Counts(p: Place) { p.Counted? || p.Refused? || p.Parked? || p.Granted? }

  /** Past the limit check on the way to the permit, or sure to pass it. */
  predicate Queued(p: Place) { p.Parked? || p.Granted? || (p.Counted? && p.seen <= QUEUE_LIMIT) }

  function Put(h: Host, r: Request, p: Place): Host { h.(places := h.places[r := p]) }

  /** One atomic step of one request. */
  ghost predicate StepOf(h: Host, r: Request, n: Host) {
    r in h.places &&
    match h.places[r]
    case Arriving =>
      // try_acquire takes a free permit and fails at once if there is none
      (h.permitFree && n == Put(h, r, Running).(permitFree := false)) || (!h.permitFree && n == Put(h, r, Barred))
    case Barred =>
      // fetch_add, plus the one it has just added
      n == Put(h, r, Counted(h.waiters + 1)).(waiters := h.waiters + 1)
    case Counted(seen) =>
      n == Put(h, r, if seen > QUEUE_LIMIT then Refused else Parked)
    case Refused =>
      n == Put(h, r, Rejected).(waiters := h.waiters - 1)
    case Parked =>
      h.permitFree && n == Put(h, r, Granted).(permitFree := false)
    case Granted =>
      n == Put(h, r, Running).(waiters := h.waiters - 1)
    case Running =>
      // the permit is dropped when the guest run ends
      n == Put(h, r, Finished).(permitFree := true)
    case Rejected => false
    case Finished => false
  }

  ghost predicate Step(h: Host, n: Host) { exists r :: StepOf(h, r, n) }

  function Counting(h: Host): set<Request> { set r | r in h.places && Counts(h.places[r]) }

  function InQueue(h: Host): set<Request> { set r | r in h.places && Queued(h.places[r]) }

  function ParkedOnes(h: Host): set<Request> { set r | r in h.places && h.places[r] == Parked }

  function Holders(h: Host): set<Request> { set r | r in h.places && Holds(h.places[r]) }

  /** What every interleaving keeps. */
  ghost predicate Inv(h: Host) {
    && h.waiters == |Counting(h)|
    && |InQueue(h)| <= QUEUE_LIMIT
    && |Holders(h)| == (if h.permitFree then 0 else 1)
  }

  lemma InitialInv(h: Host)
    requires Initial(h)
    ensures Inv(h)
  {
    assert Counting(h) == {} && InQueue(h) == {} && Holders(h) == {};
  }

  /** How moving one request changes a set of requests picked by a property of their place. */
  lemma SetAfterPut(h: Host, r: Request, p: Place)
    requires r in h.places
    ensures Counting(Put(h, r, p)) == if Counts(p) then Counting(h) + {r} else Counting(h) - {r}
    ensures InQueue(Put(h, r, p)) == if Queued(p) then InQueue(h) + {r} else InQueue(h) - {r}
    ensures Holders(Put(h, r, p)) == if Holds(p) then Holders(h) + {r} else Holders(h) - {r}
  {
  }

  /** Every step of every request keeps the invariant. */
  lemma StepKeepsInv(h: Host, r: Request, n: Host)
    requires Inv(h) && StepOf(h, r, n)
    ensures Inv(n)
  {
    var p := n.places[r];
    SetAfterPut(h, r, p);
    assert Counting(n) == Counting(Put(h, r, p)) && InQueue(n) == InQueue(Put(h, r, p))
        && Holders(n) == Holders(Put(h, r, p));
    assert InQueue(n) <= Counting(n);
    SubsetSize(InQueue(n), Counting(n));
    if h.places[r].Barred? && p.seen <= QUEUE_LIMIT {
      assert |Counting(n)| == h.waiters + 1 == p.seen;
    }
  }

  lemma {:induction false} SubsetSize(a: set<Request>, b: set<Request>)
    requires a <= b
    ensures |a| <= |b|
  {
    assert b == a + (b - a);
  }

  ghost predicate IsRun(hosts: seq<Host>) {
    && hosts != [] && Initial(hosts[0])
    && forall i :: 0 <= i < |hosts| - 1 ==> Step(hosts[i], hosts[i + 1])
  }

  lemma {:induction false} RunsKeepInv(hosts: seq<Host>, i: nat)
    requires IsRun(hosts) && i < |hosts|
    ensures Inv(hosts[i])
    decreases i
  {
    hide Inv, StepOf, Initial;
    if i == 0 {
      InitialInv(hosts[0]);
    } else {
      RunsKeepInv(hosts, i - 1);
      assert Step(hosts[i - 1], hosts[i - 1 + 1]);
      var h, n := hosts[i - 1], hosts[i];
      var r :| StepOf(h, r, n);
      StepKeepsInv(h, r, n);
    }
  }

  /** In every interleaving of any number of requests: two requests never hold the permit at
      once, at most eight are parked, the counter is the number of requests between increment
      and decrement, and once all requests are over it is back at 0 and the permit is free. */
  lemma AdmissionIsSafe(hosts: seq<Host>, i: nat)
    requires IsRun(hosts) && i < |hosts|
    ensures var h := hosts[i];
            && (forall r, s :: r in Holders(h) && s in Holders(h) ==> r == s)
            && |ParkedOnes(h)| <= QUEUE_LIMIT
            && h.waiters == |Counting(h)|
            && ((forall r :: r in h.places ==> h.places[r].Rejected? || h.places[r].Finished?) ==>
                  h.waiters == 0 && h.permitFree)
  {
    RunsKeepInv(hosts, i);
    var h := hosts[i];
    SubsetSize(ParkedOnes(h), InQueue(h));
    forall r, s | r in Holders(h) && s in Holders(h) ensures r == s {
      if r != s { SubsetSize({r, s}, Holders(h)); }
    }
    if forall r :: r in h.places ==> h.places[r].Rejected? || h.places[r].Finished? {
      assert Counting(h) == {} && Holders(h) == {};
    }
  }

  predicate Over(p: Place) { p.Rejected? || p.Finished? }

  lemma CanMove(h: Host, r: Request)
    requires r in h.places && !Over(h.places[r]) && (h.places[r].Parked? ==> h.permitFree)
    ensures exists n :: Step(h, n)
  {
    var n := match h.places[r]
      case Arriving => if h.permitFree then Put(h, r, Running).(permitFree := false) else Put(h, r, Barred)
      case Barred => Put(h, r, Counted(h.waiters + 1)).(waiters := h.waiters + 1)
      case Counted(seen) => Put(h, r, if seen > QUEUE_LIMIT then Refused else Parked)
      case Refused => Put(h, r, Rejected).(waiters := h.waiters - 1)
      case Parked => Put(h, r, Granted).(permitFree := false)
      case Granted => Put(h, r, Running).(waiters := h.waiters - 1)
      case Running => Put(h, r, Finished).(permitFree := true)
      case Rejected => h
      case Finished => h;
    assert StepOf(h, r, n);
    assert Step(h, n);
  }

  /** No interleaving gets stuck: while a request is under way, some request can move. */
  lemma NeverStuck(hosts: seq<Host>, i: nat, r: Request)
    requires IsRun(hosts) && i < |hosts| && r in hosts[i].places && !Over(hosts[i].places[r])
    ensures exists n :: Step(hosts[i], n)
  {
    var h := hosts[i];
    RunsKeepInv(hosts, i);
    if h.places[r].Parked? && !h.permitFree {
      assert |Holders(h)| == 1;
      var s :| s in Holders(h);
      CanMove(h, s);
    } else {
      CanMove(h, r);
    }
  }

  // ---------------------------------------------------------------- who is turned away

  /** Before step `i` of the run the request found eight others counting when it added itself. */
  ghost predicate FoundFull(hosts: seq<Host>, i: nat, r: Request) {
    exists j :: 0 <= j < i && j < |hosts| && r in hosts[j].places && hosts[j].places[r].Barred? && |Counting(hosts[j])| >= 8
  }

  /** Before step `i` of the run the request came when another one held the permit. */
  ghost predicate FoundBusy(hosts: seq<Host>, i: nat, r: Request) {
    exists j, s :: 0 <= j < i && j < |hosts| && r in hosts[j].places && hosts[j].places[r].Arriving? && s != r && s in Holders(hosts[j])
  }

  /** What the place of a request says of the way it came. */
  ghost predicate CameBy(hosts: seq<Host>, i: nat, r: Request, p: Place) {
    match p
    case Arriving => true
    case Running => true
    case Finished => true
    case Barred => FoundBusy(hosts, i, r)
    case Counted(seen) => FoundBusy(hosts, i, r) && (seen > 8 ==> FoundFull(hosts, i, r))
    case Refused => FoundBusy(hosts, i, r) && FoundFull(hosts, i, r)
    case Rejected => FoundBusy(hosts, i, r) && FoundFull(hosts, i, r)
    case Parked => FoundBusy(hosts, i, r)
    case Granted => FoundBusy(hosts, i, r)
  }

  lemma CameByLater(hosts: seq<Host>, i: nat, r: Request, p: Place)
    requires CameBy(hosts, i, r, p)
    ensures CameBy(hosts, i + 1, r, p)
  {
  }

  /** One step of the request's own. */
  lemma CameByStep(hosts: seq<Host>, i: nat, r: Request, n: Host)
    requires i < |hosts| && Inv(hosts[i]) && r in hosts[i].places && CameBy(hosts, i, r, hosts[i].places[r])
    requires StepOf(hosts[i], r, n)
    ensures CameBy(hosts, i + 1, r, n.places[r])
  {
    var h := hosts[i];
    CameByLater(hosts, i, r, h.places[r]);
    if h.places[r].Arriving? && !h.permitFree {
      var s :| s in Holders(h);
      assert s != r;
    }
  }

  lemma {:induction false} RunsCameBy(hosts: seq<Host>, i: nat, r: Request)
    requires IsRun(hosts) && i < |hosts| && r in hosts[i].places
    ensures CameBy(hosts, i, r, hosts[i].places[r])
    decreases i
  {
    hide Inv, StepOf, CameBy;
    if i == 0 {
      StartsArriving(hosts, r);
    } else {
      assert Step(hosts[i - 1], hosts[i - 1 + 1]);
      var h, n := hosts[i - 1], hosts[i];
      var s :| StepOf(h, s, n);
      OthersStay(h, s, n, r);
      RunsCameBy(hosts, i - 1, r);
      if s == r {
        RunsKeepInv(hosts, i - 1);
        CameByStep(hosts, i - 1, r, n);
      } else {
        CameByLater(hosts, i - 1, r, h.places[r]);
      }
    }
  }

  lemma StartsArriving(hosts: seq<Host>, r: Request)
    requires IsRun(hosts) && r in hosts[0].places
    ensures CameBy(hosts, 0, r, hosts[0].places[r])
  {
  }

  /** A step moves one request. */
  lemma OthersStay(h: Host, s: Request, n: Host, r: Request)
    requires StepOf(h, s, n)
    ensures n.places.Keys == h.places.Keys && (r in h.places && r != s ==> n.places[r] == h.places[r])
  {
  }

  /** A request is turned away only if it came when another one held the permit, and found eight
      others counting when it added itself. */
  lemma RejectedFoundFull(hosts: seq<Host>, i: nat, r: Request)
    requires IsRun(hosts) && i < |hosts| && r in hosts[i].places && hosts[i].places[r].Rejected?
    ensures FoundBusy(hosts, i, r) && FoundFull(hosts, i, r)
  {
    RunsCameBy(hosts, i, r);
  }

  /** A request that runs or waits its turn, or will not find itself above the limit. */
  predicate Admitted(p: Place) { p.Running? || p.Finished? || p.Parked? || p.Granted? || (p.Counted? && p.seen <= 8) }

  /** Conversely it stays admitted for good if it came to a free permit, or found fewer than eight
      others counting: it is never turned away. */
  lemma {:induction false} RoomMeansAdmitted(hosts: seq<Host>, j: nat, i: nat, r: Request)
    requires IsRun(hosts) && j < i < |hosts| && r in hosts[j].places && r in hosts[j + 1].places
    requires hosts[j + 1].places[r] != hosts[j].places[r]
    requires || (hosts[j].places[r].Arriving? && hosts[j].permitFree)
             || (hosts[j].places[r].Barred? && |Counting(hosts[j])| < 8)
    ensures r in hosts[i].places && Admitted(hosts[i].places[r])
    decreases i
  {
    hide Inv, StepOf;
    assert Step(hosts[i - 1], hosts[i - 1 + 1]);
    var h, n := hosts[i - 1], hosts[i];
    var s :| StepOf(h, s, n);
    OthersStay(h, s, n, r);
    if j + 1 == i {
      RunsKeepInv(hosts, j);
      RoomAdmits(h, s, n, r);
    } else {
      RoomMeansAdmitted(hosts, j, i - 1, r);
      if s == r { StaysAdmitted(h, r, n); }
    }
  }

  lemma RoomAdmits(h: Host, s: Request, n: Host, r: Request)
    requires Inv(h) && StepOf(h, s, n) && r in h.places && n.places[r] != h.places[r]
    requires (h.places[r].Arriving? && h.permitFree) || (h.places[r].Barred? && |Counting(h)| < 8)
    ensures Admitted(n.places[r])
  {
  }

  lemma StaysAdmitted(h: Host, r: Request, n: Host)
    requires StepOf(h, r, n) && Admitted(h.places[r])
    ensures Admitted(n.places[r])
  {
  }

  // ---------------------------------------------------------------- runs end

  /** How many steps a request has left at most. */
  function StepsLeft(p: Place): nat {
    match p
    case Arriving => 6
    case Barred => 5
    case Counted(_) => 4
    case Refused => 1
    case Parked => 3
    case Granted => 2
    case Running => 1
    case Rejected => 0
    case Finished => 0
  }

  ghost function AllLeft(h: Host, rs: set<Request>): nat
    requires rs <= h.places.Keys
    decreases |rs|
  {
    if rs == {} then 0
    else
      var r :| r in rs;
      StepsLeft(h.places[r]) + AllLeft(h, rs - {r})
  }

  /** Any request may be taken first. */
  lemma {:induction false} AllLeftSplit(h: Host, rs: set<Request>, r: Request)
    requires r in rs && rs <= h.places.Keys
    ensures AllLeft(h, rs) == StepsLeft(h.places[r]) + AllLeft(h, rs - {r})
    decreases |rs|
  {
    var q :| q in rs && AllLeft(h, rs) == StepsLeft(h.places[q]) + AllLeft(h, rs - {q});
    if q != r {
      AllLeftSplit(h, rs - {q}, r);
      AllLeftSplit(h, rs - {r}, q);
      assert rs - {q} - {r} == rs - {r} - {q};
    }
  }

  lemma {:induction false} AllLeftSame(h: Host, n: Host, rs: set<Request>)
    requires rs <= h.places.Keys && rs <= n.places.Keys && forall r :: r in rs ==> n.places[r] == h.places[r]
    ensures AllLeft(h, rs) == AllLeft(n, rs)
    decreases |rs|
  {
    if rs != {} {
      var r :| r in rs;
      AllLeftSplit(h, rs, r);
      AllLeftSplit(n, rs, r);
      AllLeftSame(h, n, rs - {r});
    }
  }

  lemma {:induction false} AllLeftAtMost(h: Host, rs: set<Request>)
    requires rs <= h.places.Keys
    ensures AllLeft(h, rs) <= 6 * |rs|
    decreases |rs|
  {
    if rs != {} {
      var r :| r in rs;
      AllLeftSplit(h, rs, r);
      AllLeftAtMost(h, rs - {r});
    }
  }

  lemma StepUsesUp(h: Host, r: Request, n: Host)
    requires StepOf(h, r, n)
    ensures n.places.Keys == h.places.Keys && AllLeft(n, n.places.Keys) < AllLeft(h, h.places.Keys)
  {
    OthersStay(h, r, n, r);
    var all := h.places.Keys;
    AllLeftSplit(h, all, r);
    AllLeftSplit(n, all, r);
    AllLeftSame(h, n, all - {r});
  }

  lemma {:induction false} RunsUseUp(hosts: seq<Host>, i: nat)
    requires IsRun(hosts) && i < |hosts|
    ensures hosts[i].places.Keys == hosts[0].places.Keys
    ensures i + AllLeft(hosts[i], hosts[i].places.Keys) <= 6 * |hosts[0].places.Keys|
    decreases i
  {
    hide StepOf;
    if i == 0 {
      AllLeftAtMost(hosts[0], hosts[0].places.Keys);
    } else {
      assert Step(hosts[i - 1], hosts[i - 1 + 1]);
      var r :| StepOf(hosts[i - 1], r, hosts[i]);
      RunsUseUp(hosts, i - 1);
      StepUsesUp(hosts[i - 1], r, hosts[i]);
    }
  }

  /** Every run is over after six steps a request at most, and one that cannot go on has run or turned
      away every request. */
  lemma RunsEnd(hosts: seq<Host>)
    requires IsRun(hosts)
    ensures |hosts| <= 1 + 6 * |hosts[0].places.Keys|
    ensures var h := hosts[|hosts| - 1];
            (forall n :: !Step(h, n)) ==> forall r :: r in h.places ==> Over(h.places[r])
  {
    hide Step;
    RunsUseUp(hosts, |hosts| - 1);
    var h := hosts[|hosts| - 1];
    if (forall n :: !Step(h, n)) && exists r :: r in h.places && !Over(h.places[r]) {
      var r :| r in h.places && !Over(h.places[r]);
      NeverStuck(hosts, |hosts| - 1, r);
    }
  }
}
