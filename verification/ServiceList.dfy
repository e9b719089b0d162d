/** The list of services of an ensemble (wfficproc.c): what a run of announcements leaves behind, and the doubly
    linked list that stores it. */
module ServiceList {
  import opened Bits

  // ----- the specification: an insertion-ordered map -----

  /** A service with its first primary and first secondary component. */
  datatype Entry = Entry(sid: int, pa: Option<nat>, sa: Option<nat>)

  /** One call of add_service. */
  datatype Call = Call(sid: int, primary: bool, subch: nat)

  /** The position of a service, or the length of the list. */
  function IndexOf(es: seq<Entry>, sid: int): (k: nat)
    ensures k <= |es|
    ensures k < |es| ==> es[k].sid == sid
    ensures forall i :: 0 <= i < k ==> es[i].sid != sid
  {
    if es == [] then 0
    else if es[0].sid == sid then 0
    else 1 + IndexOf(es[1..], sid)
  }

  function Known(es: seq<Entry>, sid: int): (r: seq<Entry>)
    ensures IndexOf(es, sid) < |r|
  {
    if IndexOf(es, sid) < |es| then es else es + [Entry(sid, None, None)]
  }

  /** The first component of either kind wins. */
  function WithComponent(e: Entry, primary: bool, subch: nat): Entry {
    if primary then (if e.pa == None then e.(pa := Some(subch)) else e)
    else (if e.sa == None then e.(sa := Some(subch)) else e)
  }

  function Add(es: seq<Entry>, c: Call): seq<Entry> {
    var k := IndexOf(es, c.sid);
    Known(es, c.sid)[k := WithComponent(Known(es, c.sid)[k], c.primary, c.subch)]
  }

  function Components(e: Entry): nat {
    (if e.pa.Some? then 1 else 0) + if e.sa.Some? then 1 else 0
  }

  function CountComponents(es: seq<Entry>): nat {
    if es == [] then 0 else CountComponents(es[..|es| - 1]) + Components(es[|es| - 1])
  }

  function AddAll(calls: seq<Call>): seq<Entry> {
    if calls == [] then [] else Add(AddAll(calls[..|calls| - 1]), calls[|calls| - 1])
  }

  lemma AddAllStep(calls: seq<Call>, c: Call)
    ensures AddAll(calls + [c]) == Add(AddAll(calls), c)
  {
    assert (calls + [c])[..|calls|] == calls;
  }

  // ----- what a run of calls means, read off the calls alone -----

  /** The services in the order in which they were first announced. */
  function Order(calls: seq<Call>): seq<int> {
    if calls == [] then []
    else
      var before, sid := Order(calls[..|calls| - 1]), calls[|calls| - 1].sid;
      if sid in before then before else before + [sid]
  }

  /** The sub-channel of the first announcement of a component. */
  function First(calls: seq<Call>, sid: int, primary: bool): Option<nat> {
    if calls == [] then None
    else
      var before, c := First(calls[..|calls| - 1], sid, primary), calls[|calls| - 1];
      if before.Some? then before
      else if c.sid == sid && c.primary == primary then Some(c.subch)
      else None
  }

  /** The different components announced. */
  function Announced(calls: seq<Call>): set<(int, bool)> {
    set c | c in calls :: (c.sid, c.primary)
  }

  ghost predicate Distinct(es: seq<Entry>) {
    forall i, j :: 0 <= i < j < |es| ==> es[i].sid != es[j].sid
  }

  /** The list is exactly the announced services in first-seen order, each with its first components. */
  ghost predicate Reflects(es: seq<Entry>, calls: seq<Call>) {
    && |es| == |Order(calls)|
    && forall i :: 0 <= i < |es| ==>
         es[i] == Entry(Order(calls)[i], First(calls, Order(calls)[i], true), First(calls, Order(calls)[i], false))
  }

  lemma {:induction false} OrderDistinct(calls: seq<Call>)
    ensures forall i, j :: 0 <= i < j < |Order(calls)| ==> Order(calls)[i] != Order(calls)[j]
  {
    if calls != [] { OrderDistinct(calls[..|calls| - 1]); }
  }

  /** A component has a sub-channel exactly when it has been announced. */
  lemma {:induction false} FirstIsAnnounced(calls: seq<Call>, sid: int, primary: bool)
    ensures First(calls, sid, primary).Some? <==> (sid, primary) in Announced(calls)
  {
    if calls != [] {
      var before, c := calls[..|calls| - 1], calls[|calls| - 1];
      FirstIsAnnounced(before, sid, primary);
      AnnouncedStep(before, c);
      assert before + [c] == calls;
    }
  }

  lemma AnnouncedStep(calls: seq<Call>, c: Call)
    ensures Announced(calls + [c]) == Announced(calls) + {(c.sid, c.primary)}
  {
    var all := calls + [c];
    assert forall x :: x in all <==> x in calls || x == c;
  }

  lemma {:induction false} OrderIsAnnounced(calls: seq<Call>, c: Call)
    requires c in calls
    ensures c.sid in Order(calls)
  {
    var before := calls[..|calls| - 1];
    if c in before { OrderIsAnnounced(before, c); }
  }

  lemma UnknownHasNoComponent(calls: seq<Call>, sid: int, primary: bool)
    requires sid !in Order(calls)
    ensures First(calls, sid, primary) == None
  {
    FirstIsAnnounced(calls, sid, primary);
    if (sid, primary) in Announced(calls) {
      var c :| c in calls && c.sid == sid;
      OrderIsAnnounced(calls, c);
      assert false;
    }
  }

  lemma KnownIsOrdered(es: seq<Entry>, calls: seq<Call>, sid: int)
    requires Reflects(es, calls)
    ensures sid in Order(calls) <==> IndexOf(es, sid) < |es|
  {
    var order, k := Order(calls), IndexOf(es, sid);
    if sid in order {
      var i :| 0 <= i < |order| && order[i] == sid;
      assert es[i].sid == sid;
    }
    if k < |es| { assert order[k] == es[k].sid; }
  }

  lemma ReflectsStep(es: seq<Entry>, calls: seq<Call>, c: Call)
    requires Reflects(es, calls)
    ensures Reflects(Add(es, c), calls + [c])
  {
    var all, order := calls + [c], Order(calls);
    assert all[..|all| - 1] == calls && all[|all| - 1] == c;
    OrderDistinct(calls);
    var k := IndexOf(es, c.sid);
    KnownIsOrdered(es, calls, c.sid);
    if k == |es| {
      UnknownHasNoComponent(calls, c.sid, true);
      UnknownHasNoComponent(calls, c.sid, false);
    }
  }

  /** Over any run of add_service the list is the insertion-ordered map of the announcements. */
  lemma {:induction false} RunReflects(calls: seq<Call>)
    ensures Reflects(AddAll(calls), calls) && Distinct(AddAll(calls))
  {
    OrderDistinct(calls);
    if calls != [] {
      var before := calls[..|calls| - 1];
      RunReflects(before);
      ReflectsStep(AddAll(before), before, calls[|calls| - 1]);
      assert before + [calls[|calls| - 1]] == calls;
    }
  }

  /** Repeating an announcement, or announcing another sub-channel for a component that is already known, changes
      nothing. */
  lemma RepeatChangesNothing(es: seq<Entry>, c: Call, d: Call)
    requires d.sid == c.sid && d.primary == c.primary
    ensures Add(Add(es, c), d) == Add(es, c)
  {
    var k, added := IndexOf(es, c.sid), Add(es, c);
    assert added[k].sid == c.sid;
    assert forall i :: 0 <= i < k ==> added[i].sid == es[i].sid;
    assert IndexOf(added, c.sid) == k;
  }

  lemma {:induction false} CountUpdate(es: seq<Entry>, k: nat, e: Entry)
    requires k < |es|
    ensures CountComponents(es[k := e]) == CountComponents(es) - Components(es[k]) + Components(e)
  {
    var n := |es| - 1;
    if k < n {
      CountUpdate(es[..n], k, e);
      assert es[k := e][..n] == es[..n][k := e];
    } else {
      assert es[k := e][..n] == es[..n];
    }
  }

  lemma CountKnown(es: seq<Entry>, sid: int)
    ensures CountComponents(Known(es, sid)) == CountComponents(es)
  {
    assert (es + [Entry(sid, None, None)])[..|es|] == es;
  }

  /** add_service counts a component exactly when it stores one. */
  lemma CountAdd(es: seq<Entry>, c: Call)
    ensures var e := Known(es, c.sid)[IndexOf(es, c.sid)];
            CountComponents(Add(es, c))
              == CountComponents(es) + if (if c.primary then e.pa else e.sa) == None then 1 else 0
  {
    CountKnown(es, c.sid);
    var k := IndexOf(es, c.sid);
    CountUpdate(Known(es, c.sid), k, WithComponent(Known(es, c.sid)[k], c.primary, c.subch));
  }

  lemma NewComponent(es: seq<Entry>, calls: seq<Call>, c: Call)
    requires Reflects(es, calls)
    ensures var e := Known(es, c.sid)[IndexOf(es, c.sid)];
            (if c.primary then e.pa else e.sa) == None <==> (c.sid, c.primary) !in Announced(calls)
  {
    hide First, Announced;
    FirstIsAnnounced(calls, c.sid, c.primary);
    KnownIsOrdered(es, calls, c.sid);
    var k := IndexOf(es, c.sid);
    if k == |es| {
      UnknownHasNoComponent(calls, c.sid, c.primary);
    } else {
      assert es[k].sid == Order(calls)[k];
    }
  }

  /** The count is the number of different components announced. */
  lemma {:induction false} CountIsAnnounced(calls: seq<Call>)
    ensures CountComponents(AddAll(calls)) == |Announced(calls)|
  {
    if calls == [] {
      assert Announced(calls) == {};
    } else {
      var before, c := calls[..|calls| - 1], calls[|calls| - 1];
      var es, seen, x := AddAll(before), Announced(before), (c.sid, c.primary);
      CountIsAnnounced(before);
      RunReflects(before);
      CountAdd(es, c);
      AnnouncedStep(before, c);
      assert before + [c] == calls;
      NewComponent(es, before, c);
      assert x in seen ==> seen + {x} == seen;
    }
  }

  // ----- the table of sub-channels -----

  /** struct subch: the fields that matter here, and the remaining ones as they come. */
  datatype Subch = Subch(subchid: int, dabplus: bool, rest: seq<int>)

  /** What reaches the table: the coding type from add_service, the description from add_subchannel. */
  datatype Update = Coding(subch: nat, dabplus: bool) | Description(s: Subch)

  predicate UpdateOk(u: Update) {
    match u
    case Coding(subch, _) => subch < 64
    case Description(s) => 0 <= s.subchid < 64
  }

  predicate AllUpdatesOk(us: seq<Update>) {
    forall i :: 0 <= i < |us| ==> UpdateOk(us[i])
  }

  const UNUSED := Subch(0xffff, false, [])

  function Updated(t: seq<Subch>, u: Update): (r: seq<Subch>)
    requires |t| == 64 && UpdateOk(u)
    ensures |r| == 64
  {
    match u
    case Coding(subch, dabplus) => t[subch := t[subch].(dabplus := dabplus)]
    case Description(s) => if t[s.subchid].subchid > 64 then t[s.subchid := s] else t
  }

  function Table(us: seq<Update>): (t: seq<Subch>)
    requires AllUpdatesOk(us)
    ensures |t| == 64
  {
    if us == [] then seq(64, _ => UNUSED)
    else
      assert UpdateOk(us[|us| - 1]);
      Updated(Table(us[..|us| - 1]), us[|us| - 1])
  }

  /** The first description of a sub-channel in a run. */
  function Described(us: seq<Update>, k: nat): Option<Subch> {
    if us == [] then None
    else
      var before, u := Described(us[..|us| - 1], k), us[|us| - 1];
      if before.Some? then before
      else if u.Description? && u.s.subchid == k then Some(u.s)
      else None
  }

  /** The last word on its coding: an announcement of a component, or the first description itself. */
  function Coded(us: seq<Update>, k: nat): bool {
    if us == [] then false
    else
      var before, u := us[..|us| - 1], us[|us| - 1];
      match u
      case Coding(subch, dabplus) => if subch == k then dabplus else Coded(before, k)
      case Description(s) => if s.subchid == k && Described(before, k) == None then s.dabplus else Coded(before, k)
  }

  /** Over any run, in any order of announcements and descriptions, an entry holds the first description of its
      sub-channel, unused if there was none, with the coding announced last. */
  lemma {:induction false} TableReflects(us: seq<Update>, k: nat)
    requires AllUpdatesOk(us) && k < 64
    ensures Table(us)[k]
         == (if Described(us, k).Some? then Described(us, k).value else UNUSED).(dabplus := Coded(us, k))
    ensures Described(us, k).Some? ==> Described(us, k).value.subchid == k
  {
    if us != [] {
      var u := us[|us| - 1];
      assert UpdateOk(u);
      TableReflects(us[..|us| - 1], k);
    }
  }

  // ----- the linked list -----

  /** struct service. The component pointers are indices into schan. */
  class Service {
    const sid: int
    var title: string
    var pa: Option<nat>
    var sa: Option<nat>
    var next: Service?
    var prev: Service?

    constructor (sid: int)
      ensures this.sid == sid && title == [] && pa == None && sa == None && next == null && prev == null
    {
      this.sid, title, pa, sa, next, prev := sid, [], None, None, null, null;
    }
  }

  ghost function At(nodes: seq<Service>, i: int): Service? {
    if 0 <= i < |nodes| then nodes[i] else null
  }

  ghost function EntriesOf(nodes: seq<Service>): (es: seq<Entry>)
    reads nodes`pa, nodes`sa
    ensures |es| == |nodes|
    ensures forall i :: 0 <= i < |es| ==> es[i] == Entry(nodes[i].sid, nodes[i].pa, nodes[i].sa)
  {
    if nodes == [] then []
    else
      var s := nodes[|nodes| - 1];
      EntriesOf(nodes[..|nodes| - 1]) + [Entry(s.sid, s.pa, s.sa)]
  }

  lemma UpdateStep(us: seq<Update>, u: Update)
    requires AllUpdatesOk(us) && UpdateOk(u)
    ensures AllUpdatesOk(us + [u]) && Table(us + [u]) == Updated(Table(us), u)
  {
    assert (us + [u])[..|us|] == us;
  }

  /** struct ens_info: the list, the component count and the sub-channel table. */
  class Ensemble {
    var srv: Service?
    var numSrvs: int
    const schan: array<Subch>
    ghost var nodes: seq<Service>
    ghost var history: seq<Call>
    ghost var updates: seq<Update>

    /** One acyclic doubly linked list through exactly the nodes, in order. */
    ghost predicate Linked()
      reads this`srv, this`nodes, nodes`next, nodes`prev
    {
      && srv == At(nodes, 0)
      && (forall i, j :: 0 <= i < j < |nodes| ==> nodes[i] != nodes[j])
      && (forall i :: 0 <= i < |nodes| ==> nodes[i].next == At(nodes, i + 1))
      && (forall i :: 0 <= i < |nodes| ==> nodes[i].prev == At(nodes, i - 1))
    }

    ghost function Entries(): seq<Entry>
      reads this`nodes, nodes`pa, nodes`sa
    {
      EntriesOf(nodes)
    }

    ghost predicate Valid()
      reads this, nodes, schan
    {
      && schan.Length == 64 && AllUpdatesOk(updates) && schan[..] == Table(updates)
      && Linked() && Entries() == AddAll(history) && numSrvs == CountComponents(Entries())
    }

    /** ficinit. */
    constructor ()
      ensures Valid() && history == [] && updates == [] && fresh(schan)
      ensures forall k :: 0 <= k < 64 ==> schan[k].subchid == 0xffff
    {
      srv, numSrvs, nodes, history, updates := null, 0, [], [], [];
      schan := new Subch[64](_ => UNUSED);
      new;
      assert schan[..] == Table([]);
    }

    /** find_service. */
    method FindService(sid: int) returns (s: Service?)
      requires Linked()
      ensures s == At(nodes, IndexOf(Entries(), sid))
      ensures s != null <==> exists i :: 0 <= i < |nodes| && nodes[i].sid == sid
    {
      s := srv;
      ghost var i := 0;
      while s != null
        invariant i <= |nodes| && s == At(nodes, i)
        invariant forall j :: 0 <= j < i ==> nodes[j].sid != sid
        decreases |nodes| - i
      {
        if s.sid == sid { break; }
        s := s.next;
        i := i + 1;
      }
      assert IndexOf(Entries(), sid) == i;
    }

    /** The walk to the last node. */
    method Last() returns (ptr: Service)
      requires Linked() && nodes != []
      ensures ptr == nodes[|nodes| - 1]
    {
      ptr := srv;
      ghost var i := 0;
      while ptr.next != null
        invariant i < |nodes| && ptr == nodes[i]
        decreases |nodes| - i
      {
        ptr := ptr.next;
        i := i + 1;
      }
    }

    /** A new node behind the last one. */
    method Hook(ptr: Service, s: Service)
      requires Linked() && nodes != [] && ptr == nodes[|nodes| - 1]
      requires s !in nodes && s.next == null && s.prev == null
      modifies this`nodes, ptr`next, s`prev
      ensures Linked() && nodes == old(nodes) + [s]
    {
      ghost var before := nodes;
      ghost var n := |before|;
      ptr.next := s;
      s.prev := ptr;
      nodes := before + [s];
      forall i | 0 <= i < n ensures before[i].next == At(nodes, i + 1) {
        if i < n - 1 { assert before[i] != ptr && before[i].next == old(before[i].next) == before[i + 1]; }
      }
      forall i | 0 <= i < n ensures before[i].prev == At(nodes, i - 1) {
        assert before[i] != s && before[i].prev == old(before[i].prev) == At(before, i - 1);
      }
      assert forall i :: 0 <= i < n ==> nodes[i] == before[i];
    }

    /** The allocation of add_service. */
    method Append(s: Service)
      requires Linked() && s !in nodes && s.next == null && s.prev == null
      modifies this`srv, this`nodes, nodes`next, s`prev
      ensures Linked() && nodes == old(nodes) + [s]
    {
      if srv == null {
        srv := s;
        nodes := nodes + [s];
      } else {
        var ptr := Last();
        hide Linked;
        Hook(ptr, s);
      }
    }

    /** The first half of add_service: the entry of the service, made if it is not there. */
    method FindOrAppend(sid: int) returns (s: Service, ghost k: nat)
      requires Linked()
      modifies this`srv, this`nodes, nodes`next
      ensures Linked() && k == IndexOf(old(Entries()), sid) && Entries() == Known(old(Entries()), sid)
      ensures k < |nodes| && s == nodes[k]
      ensures nodes == old(nodes) || (fresh(s) && nodes == old(nodes) + [s])
    {
      hide IndexOf, EntriesOf, Linked;
      k := IndexOf(Entries(), sid);
      ghost var es := Entries();
      var found := FindService(sid);
      if found != null {
        s := found;
      } else {
        s := new Service(sid);
        Append(s);
        assert Entries() == es + [Entry(sid, None, None)];
      }
    }

    /** The second half: the component pointer is set once, and counted then. */
    method StoreComponent(s: Service, ghost k: nat, primary: bool, subch: nat)
      requires Linked() && k < |nodes| && s == nodes[k]
      modifies s`pa, s`sa, this`numSrvs
      ensures Linked() && Entries() == old(Entries())[k := WithComponent(old(Entries())[k], primary, subch)]
      ensures numSrvs == old(numSrvs) + if (if primary then old(s.pa) else old(s.sa)) == None then 1 else 0
    {
      hide EntriesOf, At;
      if (primary && s.pa == None) || (!primary && s.sa == None) {
        if primary && s.pa == None {
          s.pa := Some(subch);
          numSrvs := numSrvs + 1;
        } else if !primary && s.sa == None {
          s.sa := Some(subch);
          numSrvs := numSrvs + 1;
        }
      }
    }

    /** add_service. */
    method AddService(c: Call, ascTy: nat)
      requires Valid() && c.subch < 64
      modifies this, nodes`next, nodes`pa, nodes`sa, schan
      ensures Valid() && history == old(history) + [c]
      ensures updates == old(updates) + [Coding(c.subch, ascTy == 0x3f)]
      ensures Entries() == Add(old(Entries()), c)
      ensures numSrvs == |Announced(history)|
      ensures schan[..] == old(schan[..])[c.subch := old(schan[c.subch]).(dabplus := ascTy == 0x3f)]
      ensures old(nodes) <= nodes
    {
      hide Linked, CountComponents, Announced, WithComponent, Known, EntriesOf, AddAll, IndexOf, Table, AllUpdatesOk;
      ghost var es := Entries();
      var s, k := FindOrAppend(c.sid);
      CountAdd(es, c);
      schan[c.subch] := schan[c.subch].(dabplus := ascTy == 0x3f);
      StoreComponent(s, k, c.primary, c.subch);
      history := history + [c];
      ghost var u := Coding(c.subch, ascTy == 0x3f);
      UpdateStep(old(updates), u);
      updates := updates + [u];
      AddAllStep(old(history), c);
      CountIsAnnounced(history);
    }

    /** add_subchannel: a description is kept if the entry is still unused. Over a run the first one wins, by
        TableReflects and Valid. */
    method AddSubchannel(s: Subch)
      requires Valid() && 0 <= s.subchid < 64
      modifies schan, `updates
      ensures Valid() && updates == old(updates) + [Description(s)]
      ensures schan[s.subchid].subchid == s.subchid
      ensures old(schan[s.subchid]).subchid <= 64 ==> schan[..] == old(schan[..])
      ensures schan[..] == if old(schan[s.subchid]).subchid > 64 then old(schan[..])[s.subchid := s] else old(schan[..])
    {
      hide Linked, EntriesOf, AddAll, CountComponents, Table, AllUpdatesOk, Described, Coded;
      if schan[s.subchid].subchid > 64 {
        schan[s.subchid] := s;
      }
      UpdateStep(updates, Description(s));
      TableReflects(updates, s.subchid);
      updates := updates + [Description(s)];
    }

    /** labelled: there is a service and every one has a label. */
    method Labelled() returns (all: bool)
      requires Linked()
      ensures all <==> nodes != [] && forall i :: 0 <= i < |nodes| ==> nodes[i].title != []
    {
      var p := srv;
      if p == null { return false; }
      ghost var i := 0;
      while p != null
        invariant i <= |nodes| && p == At(nodes, i)
        invariant forall j :: 0 <= j < i ==> nodes[j].title != []
        decreases |nodes| - i
      {
        if |p.title| == 0 { return false; }
        p := p.next;
        i := i + 1;
      }
      all := true;
    }
  }
}
