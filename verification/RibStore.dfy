/** The store of outgoing routes: its fields, updated in place, follow the value-level RIB.

    Every method is proved against a function or predicate of the module of values: inserting, draining
    one inner map, draining all of them in one message each or in many, resetting, resending, and the
    three together at a reconnection. */
module RibStore {
  import opened AdjRibOut

  /** A prefix with the direction of its change and its next hop, and a message carrying several with
      one set of attributes. */
  datatype Nlri = Nlri(key: Key, action: Action, nextHop: NextHop)

  datatype Update = Update(nlris: seq<Nlri>, attributes: Attributes)

  function NlriOf(c: Change): Nlri {
    Nlri(KeyOf(c), c.action, c.nextHop)
  }

  function Receive(peer: Peer, nlri: Nlri, attributes: Attributes): Peer {
    if nlri.action.Announce? then peer[nlri.key := Path(attributes, nlri.nextHop)] else peer - {nlri.key}
  }

  function ReceiveNlris(peer: Peer, nlris: seq<Nlri>, attributes: Attributes): Peer {
    if nlris == [] then peer
    else Receive(ReceiveNlris(peer, nlris[..|nlris| - 1], attributes), nlris[|nlris| - 1], attributes)
  }

  /** The peer's table after a sequence of messages. */
  function ReceiveAll(peer: Peer, updates: seq<Update>): Peer {
    if updates == [] then peer
    else
      var last := updates[|updates| - 1];
      ReceiveNlris(ReceiveAll(peer, updates[..|updates| - 1]), last.nlris, last.attributes)
  }

  lemma {:induction false} ReceiveConcat(peer: Peer, a: seq<Update>, b: seq<Update>)
    ensures ReceiveAll(peer, a + b) == ReceiveAll(ReceiveAll(peer, a), b)
  {
    if b == [] {
      assert a + b == a;
    } else {
      var init := b[..|b| - 1];
      ReceiveConcat(peer, a, init);
      assert (a + b)[..|a + b| - 1] == a + init;
    }
  }

  // ----- listing pending changes -----

  /** The changes of a list with different indexes, by index. */
  function FromList(list: seq<Change>): Pending {
    if list == [] then map[]
    else FromList(list[..|list| - 1])[list[|list| - 1].index := list[|list| - 1]]
  }

  ghost predicate Listing(list: seq<Change>, m: Pending, a: Attributes) {
    && FromList(list) == m
    && (forall c | c in list :: c.attributes == a)
    && (forall j, k | 0 <= j < k < |list| :: list[j].index != list[k].index)
  }

  lemma {:induction false} FromListKeys(list: seq<Change>)
    ensures FromList(list).Keys == set c | c in list :: c.index
  {
    if list != [] {
      var init, last := list[..|list| - 1], list[|list| - 1];
      FromListKeys(init);
      assert list == init + [last];
    }
  }

  lemma FromListNext(list: seq<Change>, j: nat)
    requires j < |list|
    ensures FromList(list[..j + 1]) == FromList(list[..j])[list[j].index := list[j]]
    ensures (forall i, k | 0 <= i < k < |list| :: list[i].index != list[k].index) ==>
              list[j].index !in FromList(list[..j])
  {
    assert list[..j + 1][..j] == list[..j];
    FromListKeys(list[..j]);
  }

  lemma ReceiveOne(peer: Peer, m: Pending, c: Change)
    requires c.index !in m
    ensures PeerAfter(peer, m[c.index := c]) == Receive(PeerAfter(peer, m), NlriOf(c), c.attributes)
  {
    var after := PeerAfter(peer, m[c.index := c]);
    var step := Receive(PeerAfter(peer, m), NlriOf(c), c.attributes);
    forall k: Key
      ensures SameAt(after, step, k)
    {
      OverlayAt(peer, m, PathOf, k);
      OverlayAt(peer, m[c.index := c], PathOf, k);
    }
    SameEverywhere(after, step);
  }

  function Nlris(list: seq<Change>): seq<Nlri> {
    seq(|list|, j requires 0 <= j < |list| => NlriOf(list[j]))
  }

  function Singles(list: seq<Change>, a: Attributes): seq<Update> {
    seq(|list|, j requires 0 <= j < |list| => Update([NlriOf(list[j])], a))
  }

  lemma ReceiveSingle(peer: Peer, n: Nlri, a: Attributes)
    ensures ReceiveNlris(peer, [n], a) == Receive(peer, n, a)
  {
    assert [n][..0] == [];
  }

  lemma ListingNext(list: seq<Change>, m: Pending, a: Attributes)
    requires Listing(list, m, a) && list != []
    ensures var init, last := list[..|list| - 1], list[|list| - 1];
            Listing(init, FromList(init), a) && last.index !in FromList(init) && last.attributes == a
            && m == FromList(init)[last.index := last]
  {
    FromListNext(list, |list| - 1);
    assert list[..|list|] == list;
  }

  lemma {:induction false} ReceiveSingles(peer: Peer, list: seq<Change>, a: Attributes)
    ensures ReceiveAll(peer, Singles(list, a)) == ReceiveNlris(peer, Nlris(list), a)
  {
    if list != [] {
      var init, last := list[..|list| - 1], list[|list| - 1];
      ReceiveSingles(peer, init, a);
      assert Nlris(list)[..|list| - 1] == Nlris(init);
      assert Singles(list, a)[..|list| - 1] == Singles(init, a);
      ReceiveSingle(ReceiveNlris(peer, Nlris(init), a), NlriOf(last), a);
    }
  }

  lemma {:induction false} ReceiveTogether(peer: Peer, list: seq<Change>, m: Pending, a: Attributes)
    requires Listing(list, m, a)
    ensures ReceiveNlris(peer, Nlris(list), a) == PeerAfter(peer, m)
    decreases |list|
  {
    if list == [] {
      OverlayNothing(peer, PathOf);
    } else {
      hide PeerAfter, Receive, FromList;
      var init, last := list[..|list| - 1], list[|list| - 1];
      ListingNext(list, m, a);
      ReceiveTogether(peer, init, FromList(init), a);
      ReceiveOne(peer, FromList(init), last);
      assert Nlris(list)[..|list| - 1] == Nlris(init);
    }
  }

  /** One message with all changes, and one message for each of them, do the same to the peer. */
  lemma ReceiveListing(peer: Peer, list: seq<Change>, m: Pending, a: Attributes)
    requires Listing(list, m, a)
    ensures ReceiveNlris(peer, Nlris(list), a) == PeerAfter(peer, m)
    ensures ReceiveAll(peer, Singles(list, a)) == PeerAfter(peer, m)
  {
    ReceiveTogether(peer, list, m, a);
    ReceiveSingles(peer, list, a);
  }

  method ListChanges(m: Pending, a: Attributes) returns (list: seq<Change>)
    requires forall i | i in m :: m[i].index == i && m[i].attributes == a
    ensures Listing(list, m, a)
  {
    list := [];
    var todo := m.Keys;
    var seen: Pending := map[];
    while todo != {}
      invariant todo <= m.Keys && seen == m - todo
      invariant Listing(list, seen, a)
      decreases todo
    {
      var i :| i in todo;
      FromListKeys(list);
      assert (list + [m[i]])[..|list|] == list;
      list := list + [m[i]];
      seen := seen[i := m[i]];
      todo := todo - {i};
    }
    assert seen == m;
  }

  // ----- the store -----

  type Announced = map<Family, map<Index, Change>>

  function Flat(announced: Announced): map<Key, Change> {
    map f, i | f in announced && i in announced[f] :: Key(f, i) := announced[f][i]
  }

  lemma FlatAt(announced: Announced, k: Key)
    ensures k in Flat(announced) <==> k.family in announced && k.index in announced[k.family]
    ensures k in Flat(announced) ==> Flat(announced)[k] == announced[k.family][k.index]
  {
    if k.family in announced && k.index in announced[k.family] {
      assert k == Key(k.family, k.index);
    }
  }

  class Store {
    var cache: bool
    const families: set<Family>
    var cacheAttribute: map<Attributes, Change>
    var announced: Announced
    var modifyNlri: Pending
    var modifySorted: Sorted

    function Model(): State
      reads this
    {
      State(cache, announced.Keys, Flat(announced), cacheAttribute, modifyNlri, modifySorted)
    }

    ghost predicate Ok()
      reads this
    {
      Valid(Model())
    }

    constructor (families: set<Family>)
      ensures Ok() && this.families == families
      ensures Model() == Fresh(false).store
    {
      this.cache := false;
      this.families := families;
      cacheAttribute, announced, modifyNlri, modifySorted := map[], map[], map[], map[];
    }

    /** Takes a pending change out of both indexes; an inner map that gets empty goes too. */
    method Unqueue(i: Index) returns (oldChange: Change)
      requires Ok() && i in modifyNlri
      modifies this`modifyNlri, this`modifySorted
      ensures Model() == AdjRibOut.Unqueue(old(Model()), i) && oldChange == old(modifyNlri)[i]
    {
      oldChange := modifyNlri[i];
      var oldAttrIndex := oldChange.attributes;
      ghost var before := modifySorted;
      modifyNlri := modifyNlri - {i};
      modifySorted := modifySorted[oldAttrIndex := modifySorted[oldAttrIndex] - {i}];
      if modifySorted[oldAttrIndex] == map[] {
        modifySorted := modifySorted - {oldAttrIndex};
        assert modifySorted == before - {oldAttrIndex};
      }
    }

    method Enqueue(change: Change)
      modifies this`cacheAttribute, this`modifyNlri, this`modifySorted
      ensures Model() == AdjRibOut.Enqueue(old(Model()), change)
    {
      var nlriIndex, attrIndex := change.index, change.attributes;
      var inner: Pending := if attrIndex in modifySorted then modifySorted[attrIndex] else map[];
      modifySorted := modifySorted[attrIndex := inner[nlriIndex := change]];
      modifyNlri := modifyNlri[nlriIndex := change];
      if attrIndex !in cacheAttribute {
        cacheAttribute := cacheAttribute[attrIndex := change];
      }
    }

    /** Queues a change in both indexes, in place of a pending change under the same index; cancels an
        announcement that was never sent. `raised` stands for the failing lookup of the family. */
    method InsertAnnounced(change: Change) returns (raised: bool)
      requires Ok()
      modifies this`cacheAttribute, this`modifyNlri, this`modifySorted
      ensures Ok() && Model() == Insert(old(Model()), change)
      ensures raised <==> Fails(old(Model()), change)
    {
      hide Valid, Flat;
      ghost var before := Model();
      InsertValid(before, change);
      FlatAt(announced, KeyOf(change));
      if change.index in modifyNlri {
        var oldChange := Unqueue(change.index);
        if oldChange.action.Announce? && change.action.Withdraw? {
          if cache {
            if change.family !in announced {
              return true;
            }
            if change.index !in announced[change.family] {
              return false;
            }
          }
        }
      }
      Enqueue(change);
      raised := false;
    }

    /** The route was announced before, with the same attribute index. */
    predicate Known(change: Change)
      reads this
    {
      && change.action.Announce?
      && change.family in announced && change.index in announced[change.family]
      && announced[change.family][change.index].attributes == change.attributes
    }

    lemma KnownIsDuplicate(change: Change)
      ensures Duplicate(Model(), change) <==> cache && Known(change)
    {
      FlatAt(announced, KeyOf(change));
    }

    /** Those changes of one inner map that are not duplicates of what was announced. */
    method Changed(full: Pending) returns (dictChange: Pending)
      requires forall i | i in full :: full[i].index == i && i in modifyNlri && modifyNlri[i] == full[i]
      ensures dictChange == map i | i in full && !(cache && Known(full[i])) :: full[i]
    {
      if !cache {
        return full;
      }
      dictChange := map[];
      var todo := full.Keys;
      while todo != {}
        invariant todo <= full.Keys
        invariant dictChange == map i | i in full && i !in todo && !Known(full[i]) :: full[i]
        decreases todo
      {
        var i :| i in todo;
        var change := full[i];
        var known: map<Index, Change> := if change.family in announced then announced[change.family] else map[];
        todo := todo - {i};
        if change.action.Announce? {
          if i in known && known[i].attributes == change.attributes {
            continue;
          }
        } else if i !in known {
          if modifyNlri[i].action.Announce? {
            assert false;
          }
        }
        dictChange := dictChange[i := change];
      }
    }

    /** Takes the changes of a list out of both indexes. */
    method Dequeue(changed: seq<Change>, a: Attributes)
      requires a in modifySorted
      modifies this`modifyNlri, this`modifySorted
      ensures modifyNlri == old(modifyNlri) - FromList(changed).Keys
      ensures modifySorted == old(modifySorted)[a := old(modifySorted)[a] - FromList(changed).Keys]
    {
      ghost var sorted := modifySorted;
      ghost var none: set<Index> := {};
      assert sorted[a] - none == sorted[a] && FromList([]).Keys == none;
      assert sorted == sorted[a := sorted[a] - none];
      var j := 0;
      while j < |changed|
        invariant j <= |changed| && a in modifySorted
        invariant modifyNlri == old(modifyNlri) - FromList(changed[..j]).Keys
        invariant modifySorted == sorted[a := sorted[a] - FromList(changed[..j]).Keys]
      {
        FromListNext(changed, j);
        var i := changed[j].index;
        assert sorted[a] - FromList(changed[..j]).Keys - {i} == sorted[a] - FromList(changed[..j + 1]).Keys;
        modifySorted := modifySorted[a := modifySorted[a] - {i}];
        modifyNlri := modifyNlri - {i};
        j := j + 1;
      }
      assert changed[..|changed|] == changed;
    }

    /** Records what was sent: announcements enter the cache, withdrawals leave it. */
    method Record(changed: seq<Change>)
      requires forall j, k | 0 <= j < k < |changed| :: changed[j].index != changed[k].index
      modifies this`announced
      ensures Flat(announced) == Overlay(old(Flat(announced)), FromList(changed), (c: Change) => c)
      ensures announced.Keys == old(announced.Keys) + AnnouncedFamilies(FromList(changed))
    {
      hide Flat, Overlay, AnnouncedFamilies, CacheOne;
      var j := 0;
      ghost var start := announced;
      OverlayNothing(Flat(start), (c: Change) => c);
      NoFamilies();
      while j < |changed|
        invariant j <= |changed|
        invariant Flat(announced) == Overlay(Flat(start), FromList(changed[..j]), (c: Change) => c)
        invariant announced.Keys == start.Keys + AnnouncedFamilies(FromList(changed[..j]))
      {
        FromListNext(changed, j);
        var change := changed[j];
        ghost var before := announced;
        if change.action.Announce? {
          var inner: map<Index, Change> := if change.family in announced then announced[change.family] else map[];
          announced := announced[change.family := inner[change.index := change]];
        } else {
          var family := change.family;
          if family in announced {
            announced := announced[family := announced[family] - {change.index}];
          }
        }
        RecordOne(before, announced, change);
        RecordNext(Flat(start), FromList(changed[..j]), change);
        j := j + 1;
      }
      assert changed[..|changed|] == changed;
    }
  
    /** Sends the changes of one inner map, in one message or in one for each, and records them. */
    method DrainGroup(a: Attributes, grouped: bool) returns (updates: seq<Update>)
      requires Ok() && a in modifySorted
      modifies this`announced, this`modifyNlri, this`modifySorted
      ensures Model() == DrainSome(old(Model()), Group(old(Model()), a))
      ensures Delivers(updates, Group(old(Model()), a)) && Shaped(updates, grouped, {a})
    {
      hide Valid, Flat, DrainSome, Group, Overlay, Delivers, AnnouncedFamilies, Shaped;
      ghost var s := Model();
      GroupFacts(s, a);
      var dictChange := Changed(modifySorted[a]);
      assert dictChange == Group(s, a) by {
        forall i | i in s.sorted[a] {
          KnownIsDuplicate(s.sorted[a][i]);
        }
        ChangedIsGroup(s, a, dictChange);
      }
      if dictChange == map[] {
        NothingDelivers();
        NothingShaped(grouped, {a});
        EmptyGroup(s, a);
        return [];
      }
      var attributes := cacheAttribute[a].attributes;
      var changed := ListChanges(dictChange, a);
      ListingDelivers(changed, dictChange, a);
      ListingShaped(changed, dictChange, a);
      if grouped {
        updates := [Update(Nlris(changed), attributes)];
      } else {
        updates := Singles(changed, attributes);
      }
      Dequeue(changed, a);
      if cache {
        Record(changed);
      }
      GroupDrained(s, a, Model());
    }

    /** Drains the queue. Grouped or not, the store and the peer's table end up the same; grouped there is
        one message for each set of attributes at most, otherwise every message carries one prefix. */
    method Updates(grouped: bool) returns (updates: seq<Update>)
      requires Ok()
      modifies this`announced, this`modifyNlri, this`modifySorted
      ensures Ok() && Model() == Drained(old(Model()))
      ensures Delivers(updates, Sent(old(Model())))
      ensures Shaped(updates, grouped, old(modifySorted.Keys))
    {
      hide Valid, Flat, DrainSome, Group, Overlay, Delivers, AnnouncedFamilies, SentFrom, Shaped;
      ghost var s := Model();
      var todo := modifySorted.Keys;
      updates := [];
      ghost var done := {};
      NoneDone(s);
      NothingDelivers();
      NothingShaped(grouped, done);
      while todo != {}
        invariant done == s.sorted.Keys - todo && todo <= s.sorted.Keys
        invariant Model() == DrainSome(s, SentFrom(s, done))
        invariant Delivers(updates, SentFrom(s, done)) && Shaped(updates, grouped, done)
        decreases todo
      {
        var a :| a in todo;
        PartValid(s, done);
        GroupAfter(s, done, a);
        GroupSent(s, done, a);
        var more := DrainGroup(a, grouped);
        BothDeliver(updates, SentFrom(s, done), more, Group(s, a));
        BothShaped(updates, more, grouped, done, a);
        updates := updates + more;
        todo := todo - {a};
        done := done + {a};
      }
      AllDone(s);
      assert done == s.sorted.Keys;
      DrainedValid(s);
    }

    /** Drains the queue into the cache without sending anything. */
    method Reset()
      requires Ok()
      modifies this`announced, this`modifyNlri, this`modifySorted
      ensures Ok() && Model() == Drained(old(Model()))
    {
      var discarded := Updates(false);
    }

    /** The families asked for, or all that are configured when none are named. */
    function Requested(asked: set<Family>): set<Family> {
      if asked == {} then families else asked * families
    }

    /** Queues the announced routes of one family again. */
    method ResendFamily(family: Family, ghost s: State, ghost keys: set<Key>) returns (ghost all: set<Key>)
      requires Ok() && Valid(s) && keys <= s.announced.Keys && Requeued(s, keys, Model())
      requires forall k: Key | k.family == family :: SameAt(s.announced, Model().announced, k)
      modifies this`cacheAttribute, this`modifyNlri, this`modifySorted
      ensures Ok() && all == keys + (set k | k in s.announced && k.family == family)
      ensures all <= s.announced.Keys && Requeued(s, all, Model())
    {
      hide Valid, Flat, Requeued, Insert;
      var routes: map<Index, Change> := if family in announced then announced[family] else map[];
      var todo := routes.Keys;
      all := keys;
      forall k: Key | k.family == family
        ensures k in s.announced <==> k.index in routes
        ensures k.index in routes ==> s.announced[k] == routes[k.index]
      {
        assert SameAt(s.announced, Model().announced, k);
        FlatAt(announced, k);
      }
      forall i | i in routes
        ensures Key(family, i) in s.announced && s.announced[Key(family, i)] == routes[i]
      {
        assert Key(family, i).family == family && Key(family, i).index == i;
      }
      while todo != {}
        invariant Ok() && todo <= routes.Keys && all <= s.announced.Keys
        invariant all == keys + (set i | i in routes && i !in todo :: Key(family, i))
        invariant forall i | i in routes :: Key(family, i) in s.announced && s.announced[Key(family, i)] == routes[i]
        invariant Requeued(s, all, Model())
        decreases todo
      {
        var i :| i in todo;
        RequeueOne(s, all, Model(), Key(family, i));
        var raised := InsertAnnounced(routes[i]);
        todo := todo - {i};
        all := all + {Key(family, i)};
      }
      forall k: Key
        ensures k in s.announced && k.family == family <==> k in set i | i in routes :: Key(family, i)
      {
        assert k == Key(k.family, k.index);
      }
    }

    /** Queues the announced routes of the families again and empties their cache. */
    method Resend(asked: set<Family>)
      requires Ok()
      modifies this`announced, this`cacheAttribute, this`modifyNlri, this`modifySorted
      ensures Ok() && Resent(old(Model()), Requested(asked), Model())
      ensures Refreshed(old(Model()), asked, families, Model())
    {
      hide Valid, Flat, Requeued, Without;
      ghost var s := Model();
      var requested := Requested(asked);
      var todo := requested;
      ghost var done, keys := {}, {};
      NothingResent(s);
      while todo != {}
        invariant Ok() && todo <= requested && done == requested - todo
        invariant keys == Resendable(s, done) && Requeued(s, keys, Model())
        invariant Model().announced == Without(s.announced, done) && Model().families == s.families + done
        decreases todo
      {
        var family :| family in todo;
        FamilyUntouched(s.announced, done, family);
        keys := ResendFamily(family, s, keys);
        ghost var before := announced;
        announced := announced[family := map[]];
        FlatWithout(s.announced, done, before, announced, family);
        EmptyingIsHarmless(s, keys, Model(), before);
        todo := todo - {family};
        done := done + {family};
      }
      assert done == requested;
      ResentIsRefreshed(s, asked, families, requested, Model());
    }

    /** The peer asks for the routes of some families, with nothing left to send: it is sent all of them,
        whatever it still has, and the cache is as before. */
    method Refresh(asked: set<Family>, grouped: bool, ghost held: Peer, ghost wanted: Peer)
        returns (updates: seq<Update>)
      requires Ok() && cache && Consistent(Model(), held, wanted) && Sent(Model()) == map[]
      requires DistinctAsked(held, asked, families)
      modifies this`announced, this`cacheAttribute, this`modifyNlri, this`modifySorted
      ensures Ok() && Model().announced == old(Model()).announced
      ensures ReceiveAll(held, updates) == held
      ensures ReceiveAll(map[], updates) == map k | k in held && IsAsked(asked, families, k.family) :: held[k]
    {
      hide Valid, Flat, DrainSome, Drained, Resent, Refreshed, ReceiveAll, Consistent, Sent, PeerAfter;
      hide DistinctAsked, IsAsked;
      ghost var s, requested := Model(), Requested(asked);
      RequestedIsAsked(asked);
      Resend(asked);
      RefreshOutcome(s, held, wanted, asked, families, requested, Model());
      updates := Updates(grouped);
    }

    lemma RequestedIsAsked(asked: set<Family>)
      ensures forall f :: f in Requested(asked) <==> IsAsked(asked, families, f)
    {
    }

    /** A reconnection: the peer has forgotten everything, the queue is drained into the cache, all
        announced routes are queued again and sent. `peer` is what the peer held before; `held` is what
        it would hold after the drain. */
    method Reconnect(grouped: bool, ghost peer: Peer, ghost wanted: Peer)
        returns (updates: seq<Update>, ghost held: Peer)
      requires Ok() && cache && Consistent(Model(), peer, wanted)
      modifies this`announced, this`cacheAttribute, this`modifyNlri, this`modifySorted
      ensures Ok() && held == PeerAfter(peer, Sent(old(Model())))
      ensures ReceiveAll(map[], updates) == held <==> Rebuildable(wanted, families)
      ensures ReceiveAll(map[], updates) == wanted <==>
              Rebuildable(wanted, families) && NextHopsCached(old(Model()))
      ensures Rebuildable(wanted, families) ==> Consistent(Model(), held, held)
    {
      hide Valid, Flat, DrainSome, Consistent, Resent, Rebuildable, ReceiveAll, NextHopsCached;
      held := PeerAfter(peer, Sent(Model()));
      ResetDrains(Model(), peer, wanted);
      Reset();
      ghost var s := Model();
      Resend({});
      ghost var t := Model();
      ReconnectRebuilds(s, held, wanted, families, t);
      updates := Updates(grouped);
      assert ReceiveAll(map[], updates) == PeerAfter(map[], Sent(t));
    }
  }

  lemma ChangedIsGroup(s: State, a: Attributes, dictChange: Pending)
    requires a in s.sorted && dictChange == map i | i in s.sorted[a] && !Duplicate(s, s.sorted[a][i]) :: s.sorted[a][i]
    ensures dictChange == Group(s, a)
  {
  }

  lemma PrunedAt(sorted: Sorted, a: Attributes, gone: set<Index>)
    requires a in sorted && forall b | b in sorted && b != a :: sorted[b].Keys !! gone
    ensures sorted[a := sorted[a] - gone] == Pruned(sorted, gone)
  {
    forall b | b in sorted && b != a
      ensures sorted[b] - gone == sorted[b]
    {
    }
  }

  lemma GroupFacts(s: State, a: Attributes)
    requires Valid(s) && a in s.sorted
    ensures forall i | i in s.sorted[a] ::
              && i in s.pending && s.pending[i] == s.sorted[a][i]
              && s.sorted[a][i].index == i && s.sorted[a][i].attributes == a
    ensures forall b | b in s.sorted && b != a :: s.sorted[b].Keys !! Group(s, a).Keys
    ensures a in s.attrs && s.attrs[a].attributes == a
  {
  }

  /** What the four steps for one inner map add up to. */
  lemma GroupDrained(s: State, a: Attributes, t: State)
    requires Valid(s) && a in s.sorted
    requires t.cache == s.cache && t.attrs == s.attrs
    requires t.pending == s.pending - Group(s, a).Keys
    requires t.sorted == s.sorted[a := s.sorted[a] - Group(s, a).Keys]
    requires s.cache ==> t.announced == Overlay(s.announced, Group(s, a), (c: Change) => c)
                         && t.families == s.families + AnnouncedFamilies(Group(s, a))
    requires !s.cache ==> t.announced == s.announced && t.families == s.families
    ensures t == DrainSome(s, Group(s, a))
  {
    GroupFacts(s, a);
    PrunedAt(s.sorted, a, Group(s, a).Keys);
  }

  lemma EmptyGroup(s: State, a: Attributes)
    requires a in s.sorted && Group(s, a) == map[]
    ensures DrainSome(s, Group(s, a)) == s
  {
    DrainNothing(s);
  }

  ghost predicate Delivers(updates: seq<Update>, sent: Pending) {
    forall peer :: ReceiveAll(peer, updates) == PeerAfter(peer, sent)
  }

  /** The messages carry attributes of `attrs`; grouped no two carry the same, otherwise each carries
      one prefix. */
  ghost predicate Shaped(updates: seq<Update>, grouped: bool, attrs: set<Attributes>) {
    && (forall i | 0 <= i < |updates| ::
          updates[i].nlris != [] && updates[i].attributes in attrs && (grouped || |updates[i].nlris| == 1))
    && (grouped ==> forall i, j | 0 <= i < j < |updates| :: updates[i].attributes != updates[j].attributes)
  }

  lemma NothingShaped(grouped: bool, attrs: set<Attributes>)
    ensures Shaped([], grouped, attrs)
  {
  }

  lemma BothShaped(updates: seq<Update>, more: seq<Update>, grouped: bool, attrs: set<Attributes>, a: Attributes)
    requires Shaped(updates, grouped, attrs) && Shaped(more, grouped, {a}) && a !in attrs
    ensures Shaped(updates + more, grouped, attrs + {a})
  {
  }

  lemma ListingShaped(list: seq<Change>, m: Pending, a: Attributes)
    requires Listing(list, m, a) && m != map[]
    ensures Shaped([Update(Nlris(list), a)], true, {a}) && Shaped(Singles(list, a), false, {a})
  {
  }

  lemma NothingDelivers()
    ensures Delivers([], map[])
  {
    forall peer: Peer {
      OverlayNothing(peer, PathOf);
    }
  }

  lemma BothDeliver(updates: seq<Update>, sent: Pending, more: seq<Update>, group: Pending)
    requires Delivers(updates, sent) && Delivers(more, group) && sent.Keys !! group.Keys
    ensures Delivers(updates + more, sent + group)
  {
    forall peer
      ensures ReceiveAll(peer, updates + more) == PeerAfter(peer, sent + group)
    {
      ReceiveConcat(peer, updates, more);
      PeerAfterTwice(peer, sent, group);
    }
  }

  lemma ListingDelivers(list: seq<Change>, m: Pending, a: Attributes)
    requires Listing(list, m, a)
    ensures Delivers([Update(Nlris(list), a)], m) && Delivers(Singles(list, a), m)
  {
    forall peer
      ensures ReceiveAll(peer, [Update(Nlris(list), a)]) == PeerAfter(peer, m)
      ensures ReceiveAll(peer, Singles(list, a)) == PeerAfter(peer, m)
    {
      ReceiveListing(peer, list, m, a);
      assert [Update(Nlris(list), a)][..0] == [];
    }
  }

  lemma NothingResent(s: State)
    requires Valid(s)
    ensures Resendable(s, {}) == {} && Requeued(s, {}, s) && Without(s.announced, {}) == s.announced
  {
  }

  lemma FamilyUntouched(announced: map<Key, Change>, done: set<Family>, family: Family)
    requires family !in done
    ensures forall k: Key | k.family == family :: SameAt(announced, Without(announced, done), k)
  {
  }

  lemma FlatEmptied(before: Announced, after: Announced, family: Family, k: Key)
    requires after == before[family := map[]]
    ensures if k.family == family then k !in Flat(after) else SameAt(Flat(after), Flat(before), k)
  {
    hide Flat;
    FlatAt(after, k);
    FlatAt(before, k);
  }

  lemma FlatWithout(table: map<Key, Change>, done: set<Family>, before: Announced, after: Announced, family: Family)
    requires Flat(before) == Without(table, done) && after == before[family := map[]]
    ensures Flat(after) == Without(table, done + {family}) && after.Keys == before.Keys + {family}
    ensures forall k | k in Flat(after) :: k in Flat(before) && Flat(after)[k] == Flat(before)[k]
  {
    hide Flat;
    var less := Without(table, done + {family});
    forall k: Key
      ensures SameAt(Flat(after), less, k)
    {
      FlatEmptied(before, after, family, k);
    }
    SameEverywhere(Flat(after), less);
  }

  /** Emptying part of the cache keeps the queue and both its indexes. */
  lemma EmptyingIsHarmless(s: State, keys: set<Key>, t: State, before: Announced)
    requires keys <= s.announced.Keys
    requires Requeued(s, keys, t.(announced := Flat(before), families := before.Keys))
    requires before.Keys <= t.families
    requires forall k | k in t.announced :: k in Flat(before) && t.announced[k] == Flat(before)[k]
    ensures Requeued(s, keys, t)
  {
  }

  lemma NoneDone(s: State)
    ensures SentFrom(s, {}) == map[] && DrainSome(s, SentFrom(s, {})) == s
  {
    DrainNothing(s);
  }

  lemma AllDone(s: State)
    requires Valid(s)
    ensures SentFrom(s, s.sorted.Keys) == Sent(s)
  {
  }

  lemma PartValid(s: State, done: set<Attributes>)
    requires Valid(s)
    ensures Valid(DrainSome(s, SentFrom(s, done)))
  {
  }

  lemma NoFamilies()
    ensures AnnouncedFamilies(map[]) == {}
  {
  }

  function CacheOne(table: map<Key, Change>, c: Change): map<Key, Change> {
    if c.action.Announce? then table[KeyOf(c) := c] else table - {KeyOf(c)}
  }

  lemma RecordOne(before: Announced, after: Announced, c: Change)
    requires c.action.Announce? ==>
               after == before[c.family := (if c.family in before then before[c.family] else map[])[c.index := c]]
    requires c.action.Withdraw? ==>
               after == if c.family in before then before[c.family := before[c.family] - {c.index}] else before
    ensures Flat(after) == CacheOne(Flat(before), c)
    ensures after.Keys == before.Keys + (if c.action.Announce? then {c.family} else {})
  {
    forall k: Key
      ensures SameAt(Flat(after), CacheOne(Flat(before), c), k)
    {
      FlatAt(before, k);
      FlatAt(after, k);
    }
    SameEverywhere(Flat(after), CacheOne(Flat(before), c));
  }

  lemma RecordNext(table: map<Key, Change>, m: Pending, c: Change)
    requires c.index !in m
    ensures Overlay(table, m[c.index := c], (c: Change) => c) == CacheOne(Overlay(table, m, (c: Change) => c), c)
    ensures AnnouncedFamilies(m[c.index := c]) ==
            AnnouncedFamilies(m) + (if c.action.Announce? then {c.family} else {})
  {
    var value := (c: Change) => c;
    var n := m[c.index := c];
    FamiliesNext(m, c);
    hide AnnouncedFamilies, Overlay;
    forall k: Key
      ensures SameAt(Overlay(table, n, value), CacheOne(Overlay(table, m, value), c), k)
    {
      OverlayAt(table, m, value, k);
      OverlayAt(table, n, value, k);
    }
    SameEverywhere(Overlay(table, n, value), CacheOne(Overlay(table, m, value), c));
  }

  lemma FamiliesNext(m: Pending, c: Change)
    requires c.index !in m
    ensures AnnouncedFamilies(m[c.index := c]) ==
            AnnouncedFamilies(m) + (if c.action.Announce? then {c.family} else {})
  {
    var n := m[c.index := c];
    forall f | f in AnnouncedFamilies(m)
      ensures f in AnnouncedFamilies(n)
    {
      var i :| i in m && m[i].action.Announce? && m[i].family == f;
      assert n[i] == m[i];
    }
    assert c.action.Announce? ==> n[c.index] == c;
  }
}
