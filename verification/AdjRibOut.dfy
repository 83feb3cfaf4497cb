/** The outgoing RIB as a value: its pending changes, its cache, and the peer's table. */
module AdjRibOut {

  type Family = string
  type Index = string
  type Attributes = string
  type NextHop = string

  datatype Action = Announce | Withdraw

  /** A route to announce or to withdraw. Attributes are identified by their index, which does not
      include the next hop of every family; the next hop is part of the prefix information. */
  datatype Change = Change(family: Family, index: Index, action: Action, attributes: Attributes, nextHop: NextHop)

  datatype Key = Key(family: Family, index: Index)

  /** What a peer holds for a route. */
  datatype Path = Path(attributes: Attributes, nextHop: NextHop)

  type Peer = map<Key, Path>
  type Pending = map<Index, Change>
  type Sorted = map<Attributes, Pending>

  /** The store's fields. The nested map of announced routes is flattened; `families` are its keys. */
  datatype State = State(
    cache: bool,
    families: set<Family>,
    announced: map<Key, Change>,
    attrs: map<Attributes, Change>,
    pending: Pending,
    sorted: Sorted)

  function KeyOf(c: Change): Key {
    Key(c.family, c.index)
  }

  function PathOf(c: Change): Path {
    Path(c.attributes, c.nextHop)
  }

  // ----- the two indexes over the pending changes -----

  /** A change is pending under its index exactly when it is in the inner map of its attributes, and
      in no other. */
  ghost predicate IndexesAgree(pending: Pending, sorted: Sorted) {
    && (forall i | i in pending ::
          && pending[i].index == i
          && pending[i].attributes in sorted
          && i in sorted[pending[i].attributes]
          && sorted[pending[i].attributes][i] == pending[i])
    && (forall a, i | a in sorted && i in sorted[a] ::
          i in pending && pending[i] == sorted[a][i] && pending[i].attributes == a)
  }

  ghost predicate Valid(s: State) {
    && IndexesAgree(s.pending, s.sorted)
    && s.sorted.Keys <= s.attrs.Keys
    && (forall a | a in s.attrs :: s.attrs[a].attributes == a)
    && (forall k | k in s.announced ::
          k.family in s.families && KeyOf(s.announced[k]) == k && s.announced[k].action.Announce?)
  }

  lemma OneInnerMap(s: State, i: Index)
    requires Valid(s)
    ensures i in s.pending <==> exists a :: a in s.sorted && i in s.sorted[a]
    ensures forall a, b | a in s.sorted && b in s.sorted && i in s.sorted[a] && i in s.sorted[b] :: a == b
  {
    if i in s.pending {
      assert s.pending[i].attributes in s.sorted;
    }
  }

  // ----- inserting -----

  function Unqueue(s: State, i: Index): State
    requires i in s.pending && s.pending[i].attributes in s.sorted
  {
    var a := s.pending[i].attributes;
    var inner := s.sorted[a] - {i};
    s.(pending := s.pending - {i},
       sorted := if inner == map[] then s.sorted - {a} else s.sorted[a := inner])
  }

  function Enqueue(s: State, c: Change): State {
    var a := c.attributes;
    var inner: Pending := if a in s.sorted then s.sorted[a] else map[];
    s.(pending := s.pending[c.index := c],
       sorted := s.sorted[a := inner[c.index := c]],
       attrs := if a in s.attrs then s.attrs else s.attrs[a := c])
  }

  /** A withdrawal meets the announcement it cancels, while routes are cached. */
  predicate Cancels(s: State, c: Change) {
    && s.cache && c.action.Withdraw?
    && c.index in s.pending && s.pending[c.index].action.Announce?
  }

  /** The lookup of the announced routes of a family that has none fails. */
  predicate Fails(s: State, c: Change) {
    Cancels(s, c) && c.family !in s.families
  }

  function Insert(s: State, c: Change): State
    requires c.index in s.pending ==> s.pending[c.index].attributes in s.sorted
  {
    var u := if c.index in s.pending then Unqueue(s, c.index) else s;
    if Cancels(s, c) && (c.family !in s.families || KeyOf(c) !in s.announced) then u else Enqueue(u, c)
  }

  lemma UnqueueValid(s: State, i: Index)
    requires Valid(s) && i in s.pending
    ensures Valid(Unqueue(s, i))
  {
    var u := Unqueue(s, i);
    forall j | j in u.pending
      ensures u.pending[j].attributes in u.sorted && j in u.sorted[u.pending[j].attributes]
      ensures u.sorted[u.pending[j].attributes][j] == u.pending[j]
    {
      assert j in s.pending && j in s.sorted[s.pending[j].attributes];
      if s.pending[j].attributes == s.pending[i].attributes {
        assert j in s.sorted[s.pending[j].attributes] - {i};
      }
    }
    forall a, j | a in u.sorted && j in u.sorted[a]
      ensures j in u.pending && u.pending[j] == u.sorted[a][j] && u.pending[j].attributes == a
    {
      assert a in s.sorted && j in s.sorted[a];
    }
  }

  lemma EnqueueValid(s: State, c: Change)
    requires Valid(s) && c.index !in s.pending
    ensures Valid(Enqueue(s, c))
  {
    var e := Enqueue(s, c);
    forall j | j in e.pending
      ensures e.pending[j].index == j
      ensures e.pending[j].attributes in e.sorted && j in e.sorted[e.pending[j].attributes]
      ensures e.sorted[e.pending[j].attributes][j] == e.pending[j]
    {
      if j != c.index {
        assert j in s.pending && j in s.sorted[s.pending[j].attributes];
      }
    }
    forall a, j | a in e.sorted && j in e.sorted[a]
      ensures j in e.pending && e.pending[j] == e.sorted[a][j] && e.pending[j].attributes == a
    {
      if !(a == c.attributes && j == c.index) {
        assert a in s.sorted && j in s.sorted[a];
      }
    }
  }

  lemma InsertValid(s: State, c: Change)
    requires Valid(s)
    ensures Valid(Insert(s, c))
  {
    if c.index in s.pending {
      UnqueueValid(s, c.index);
      EnqueueValid(Unqueue(s, c.index), c);
    } else {
      EnqueueValid(s, c);
    }
  }

  // ----- draining -----

  /** The peer has been sent this route with the same attribute index: with the cache on it is not sent
      again. The next hop is not looked at. */
  predicate Duplicate(s: State, c: Change) {
    && s.cache && c.action.Announce?
    && KeyOf(c) in s.announced && s.announced[KeyOf(c)].attributes == c.attributes
  }

  function Sent(s: State): Pending {
    map i | i in s.pending && !Duplicate(s, s.pending[i]) :: s.pending[i]
  }

  function KeysOf(sent: Pending): set<Key> {
    set i | i in sent :: KeyOf(sent[i])
  }

  predicate Hits(sent: Pending, k: Key) {
    k.index in sent && KeyOf(sent[k.index]) == k
  }

  /** A table after the changes: announced keys get their value, withdrawn keys go. */
  function Overlay<V>(table: map<Key, V>, sent: Pending, value: Change -> V): map<Key, V> {
    map k | k in table.Keys + KeysOf(sent) && (Hits(sent, k) ==> sent[k.index].action.Announce?) &&
            (Hits(sent, k) || k in table) ::
      if Hits(sent, k) then value(sent[k.index]) else table[k]
  }

  function PeerAfter(peer: Peer, sent: Pending): Peer {
    Overlay(peer, sent, PathOf)
  }

  function Drained(s: State): State {
    DrainSome(s, Sent(s))
  }

  function Pruned(sorted: Sorted, gone: set<Index>): Sorted {
    map a | a in sorted :: sorted[a] - gone
  }

  function AnnouncedFamilies(sent: Pending): set<Family> {
    set i | i in sent && sent[i].action.Announce? :: sent[i].family
  }

  /** The store after the changes `sent` have left the queue. */
  function DrainSome(s: State, sent: Pending): State {
    s.(pending := s.pending - sent.Keys,
       sorted := Pruned(s.sorted, sent.Keys),
       announced := if s.cache then Overlay(s.announced, sent, (c: Change) => c) else s.announced,
       families := if s.cache then s.families + AnnouncedFamilies(sent) else s.families)
  }

  lemma DrainedValid(s: State)
    requires Valid(s)
    ensures Valid(Drained(s))
  {
    var d := Drained(s);
    forall k | Hits(Sent(s), k) && Sent(s)[k.index].action.Announce?
      ensures k.family in AnnouncedFamilies(Sent(s))
    {
    }
    forall k | k in d.announced
      ensures k.family in d.families && KeyOf(d.announced[k]) == k && d.announced[k].action.Announce?
    {
    }
  }

  // ----- the peer's table follows the wanted one -----

  function Want(wanted: Peer, c: Change): Peer {
    if c.action.Announce? then wanted[KeyOf(c) := PathOf(c)] else wanted - {KeyOf(c)}
  }

  ghost predicate SameAt<V>(a: map<Key, V>, b: map<Key, V>, k: Key) {
    (k in a <==> k in b) && (k in a ==> a[k] == b[k])
  }

  /** Every key is either pending, with the wanted outcome, or is at the peer as wanted; the cache
      agrees with the peer. */
  ghost predicate Consistent(s: State, peer: Peer, wanted: Peer) {
    && (forall k {:trigger k in wanted} {:trigger k in peer} {:trigger Hits(s.pending, k)} ::
          if Hits(s.pending, k) then
            if s.pending[k.index].action.Announce? then k in wanted && wanted[k] == PathOf(s.pending[k.index])
            else k !in wanted
          else SameAt(wanted, peer, k))
    && (s.cache ==> Mirrors(s.announced, peer))
  }

  ghost predicate Mirrors(announced: map<Key, Change>, peer: Peer) {
    && announced.Keys == peer.Keys
    && forall k | k in announced :: PathOf(announced[k]) == peer[k]
  }

  /** A change for one family that takes the place of a pending change for another. */
  predicate Hijacks(s: State, c: Change) {
    c.index in s.pending && s.pending[c.index].family != c.family
  }

  /** What an insertion does to the queue. */
  lemma InsertedPending(s: State, c: Change)
    requires Valid(s)
    ensures Insert(s, c).pending ==
            if Cancels(s, c) && (c.family !in s.families || KeyOf(c) !in s.announced) then s.pending - {c.index}
            else s.pending[c.index := c]
    ensures Insert(s, c).cache == s.cache
  {
  }

  /** The outcome that a key of another index has, which an insertion does not touch. */
  lemma InsertElsewhere(s: State, peer: Peer, wanted: Peer, c: Change, k: Key)
    requires Valid(s) && Consistent(s, peer, wanted) && k.index != c.index
    ensures var t, w := Insert(s, c), Want(wanted, c);
            if Hits(t.pending, k) then
              if t.pending[k.index].action.Announce? then k in w && w[k] == PathOf(t.pending[k.index])
              else k !in w
            else SameAt(w, peer, k)
  {
    InsertedPending(s, c);
    hide Insert, Valid;
    assert k in wanted || k !in wanted;
    assert SameAt(Want(wanted, c), wanted, k);
    assert Hits(Insert(s, c).pending, k) <==> Hits(s.pending, k);
  }

  /** The outcome of the change's own key. */
  lemma InsertSameKey(s: State, peer: Peer, wanted: Peer, c: Change)
    requires Valid(s) && Consistent(s, peer, wanted)
    ensures var t, w, k := Insert(s, c), Want(wanted, c), KeyOf(c);
            if k.index in t.pending then t.pending[k.index] == c else k !in w && k !in peer
  {
    InsertedPending(s, c);
    hide Insert, IndexesAgree;
  }

  /** The outcome of a key of another family with the same index. */
  lemma InsertOtherFamily(s: State, peer: Peer, wanted: Peer, c: Change, k: Key)
    requires Valid(s) && Consistent(s, peer, wanted) && k.index == c.index && k != KeyOf(c)
    requires Hijacks(s, c) && k == KeyOf(s.pending[c.index]) ==> SameAt(wanted, peer, k)
    ensures !Hits(Insert(s, c).pending, k) && SameAt(Want(wanted, c), peer, k)
  {
    InsertedPending(s, c);
    assert c.index in s.pending ==> s.pending[c.index].index == c.index;
    hide Insert, Valid;
    assert k in wanted || k !in wanted;
    assert SameAt(Want(wanted, c), wanted, k);
  }

  /** The outcome of one key after an insertion. */
  lemma InsertAt(s: State, peer: Peer, wanted: Peer, c: Change, k: Key)
    requires Valid(s) && Consistent(s, peer, wanted)
    requires Hijacks(s, c) && k == KeyOf(s.pending[c.index]) ==> SameAt(wanted, peer, k)
    ensures var t, w := Insert(s, c), Want(wanted, c);
            if Hits(t.pending, k) then
              if t.pending[k.index].action.Announce? then k in w && w[k] == PathOf(t.pending[k.index])
              else k !in w
            else SameAt(w, peer, k)
  {
    if k.index != c.index {
      InsertElsewhere(s, peer, wanted, c, k);
    } else if k == KeyOf(c) {
      InsertSameKey(s, peer, wanted, c);
      hide Insert, Valid, Consistent;
    } else {
      InsertOtherFamily(s, peer, wanted, c, k);
      hide Insert, Valid, Consistent;
    }
  }

  lemma InsertKeepsConsistent(s: State, peer: Peer, wanted: Peer, c: Change)
    requires Valid(s) && Consistent(s, peer, wanted)
    requires Hijacks(s, c) ==> SameAt(wanted, peer, KeyOf(s.pending[c.index]))
    ensures Consistent(Insert(s, c), peer, Want(wanted, c))
  {
    forall k: Key {
      InsertAt(s, peer, wanted, c, k);
    }
  }

  /** A table whose entry under the key is that of another table. */
  function Restored(table: Peer, peer: Peer, k: Key): Peer {
    if k in peer then table[k := peer[k]] else table - {k}
  }

  /** What a peer can still be brought to have: an outcome that loses its place in the queue falls back
      to what the peer has. */
  function KeptOne(s: State, peer: Peer, kept: Peer, c: Change): Peer {
    if Hijacks(s, c) then Restored(Want(kept, c), peer, KeyOf(s.pending[c.index])) else Want(kept, c)
  }

  lemma KeptAt(s: State, peer: Peer, kept: Peer, c: Change, k: Key)
    requires Valid(s)
    ensures var lost := Hijacks(s, c) && k == KeyOf(s.pending[c.index]);
            SameAt(KeptOne(s, peer, kept, c), if lost then peer else Want(kept, c), k)
  {
  }

  /** Whatever an insertion replaces, the store stays consistent with what can still be reached. */
  lemma InsertKeepsKept(s: State, peer: Peer, kept: Peer, c: Change)
    requires Valid(s) && Consistent(s, peer, kept)
    ensures Consistent(Insert(s, c), peer, KeptOne(s, peer, kept, c))
  {
    var t, w := Insert(s, c), KeptOne(s, peer, kept, c);
    InsertedPending(s, c);
    forall k: Key
      ensures if Hits(t.pending, k) then
                if t.pending[k.index].action.Announce? then k in w && w[k] == PathOf(t.pending[k.index])
                else k !in w
              else SameAt(w, peer, k)
    {
      KeptAt(s, peer, kept, c, k);
      if Hijacks(s, c) && k == KeyOf(s.pending[c.index]) {
        assert s.pending[c.index].index == c.index;
      } else {
        InsertAt(s, peer, kept, c, k);
      }
    }
  }

  lemma OverlayAt<V>(table: map<Key, V>, sent: Pending, value: Change -> V, k: Key)
    ensures var t := Overlay(table, sent, value);
            if Hits(sent, k) then
              if sent[k.index].action.Announce? then k in t && t[k] == value(sent[k.index]) else k !in t
            else SameAt(t, table, k)
  {
    assert Hits(sent, k) ==> k in KeysOf(sent);
  }

  /** A pending change that is held back is cached, with the same attribute index, and the peer holds
      what is cached. */
  lemma HeldBackIsAtPeer(s: State, peer: Peer, wanted: Peer, k: Key)
    requires Consistent(s, peer, wanted) && Hits(s.pending, k) && !Hits(Sent(s), k)
    ensures Duplicate(s, s.pending[k.index]) && s.pending[k.index].action.Announce?
    ensures k in wanted && wanted[k] == PathOf(s.pending[k.index])
    ensures k in s.announced && k in peer && peer[k] == PathOf(s.announced[k])
    ensures wanted[k] == peer[k] <==> s.pending[k.index].nextHop == s.announced[k].nextHop
  {
    assert Duplicate(s, s.pending[k.index]);
    assert k in wanted || k !in wanted;
  }

  /** No announcement that is held back has a next hop other than the cached one. */
  ghost predicate NextHopsCached(s: State) {
    forall i | i in s.pending && Duplicate(s, s.pending[i]) ::
      s.announced[KeyOf(s.pending[i])].nextHop == s.pending[i].nextHop
  }

  /** After a drain the peer has the wanted table if and only if no announcement was held back that has
      a next hop other than the cached one. */
  lemma PeerAfterIsWantedIff(s: State, peer: Peer, wanted: Peer)
    requires Valid(s) && Consistent(s, peer, wanted)
    ensures PeerAfter(peer, Sent(s)) == wanted <==> NextHopsCached(s)
  {
    var after := PeerAfter(peer, Sent(s));
    forall k: Key
      ensures Hits(s.pending, k) && !Hits(Sent(s), k) ==> k in s.announced
      ensures SameAt(after, wanted, k) <==>
              (Hits(s.pending, k) && !Hits(Sent(s), k) ==> s.pending[k.index].nextHop == s.announced[k].nextHop)
    {
      ReachedIff(s, peer, wanted, k);
    }
    hide Consistent, PeerAfter, Valid;
    if NextHopsCached(s) {
      SameEverywhere(after, wanted);
    } else {
      var i :| i in s.pending && Duplicate(s, s.pending[i]) &&
               s.announced[KeyOf(s.pending[i])].nextHop != s.pending[i].nextHop;
      var k := KeyOf(s.pending[i]);
      assert k.index == i && Hits(s.pending, k) && !Hits(Sent(s), k);
      assert !SameAt(after, wanted, k);
    }
  }

  /** A drain reaches the wanted outcome of one key if and only if it does not hold back its next hop. */
  lemma ReachedIff(s: State, peer: Peer, wanted: Peer, k: Key)
    requires Valid(s) && Consistent(s, peer, wanted)
    ensures Hits(s.pending, k) && !Hits(Sent(s), k) ==> k in s.announced
    ensures SameAt(PeerAfter(peer, Sent(s)), wanted, k) <==>
            (Hits(s.pending, k) && !Hits(Sent(s), k) ==> s.pending[k.index].nextHop == s.announced[k].nextHop)
  {
    OverlayAt(peer, Sent(s), PathOf, k);
    assert k in wanted || k !in wanted;
    if Hits(s.pending, k) && !Hits(Sent(s), k) {
      HeldBackIsAtPeer(s, peer, wanted, k);
    }
  }

  lemma SameEverywhere<V>(a: map<Key, V>, b: map<Key, V>)
    requires forall k: Key :: SameAt(a, b, k)
    ensures a == b
  {
    forall k: Key
      ensures k in a <==> k in b
    {
      assert SameAt(a, b, k);
    }
    forall k | k in a
      ensures a[k] == b[k]
    {
      assert SameAt(a, b, k);
    }
  }

  lemma CacheMirrorsPeer(announced: map<Key, Change>, peer: Peer, sent: Pending)
    requires Mirrors(announced, peer)
    ensures Mirrors(Overlay(announced, sent, (c: Change) => c), PeerAfter(peer, sent))
  {
    forall k: Key
      ensures var a, p := Overlay(announced, sent, (c: Change) => c), PeerAfter(peer, sent);
              (k in a <==> k in p) && (k in a ==> PathOf(a[k]) == p[k])
    {
      OverlayAt(announced, sent, (c: Change) => c, k);
      OverlayAt(peer, sent, PathOf, k);
    }
  }

  /** What a drain leaves pending is held back by the drained store, and nothing is left to send. */
  lemma DrainedSendsNothing(s: State)
    requires Valid(s)
    ensures Sent(Drained(s)) == map[]
  {
    var d := Drained(s);
    forall i | i in d.pending
      ensures Duplicate(d, d.pending[i])
    {
      OverlayAt(s.announced, Sent(s), (c: Change) => c, KeyOf(s.pending[i]));
    }
  }

  /** A drain keeps the store consistent, and brings the peer's table to the wanted one if and only if
      no announcement is held back that has a next hop other than the cached one. */
  lemma DrainConverges(s: State, peer: Peer, wanted: Peer)
    requires Valid(s) && Consistent(s, peer, wanted)
    ensures Consistent(Drained(s), PeerAfter(peer, Sent(s)), wanted)
    ensures PeerAfter(peer, Sent(s)) == wanted <==> NextHopsCached(s)
    ensures !s.cache ==> NextHopsCached(s)
  {
    PeerAfterIsWantedIff(s, peer, wanted);
    if s.cache {
      CacheMirrorsPeer(s.announced, peer, Sent(s));
    }
    hide PeerAfter, Overlay, Duplicate, NextHopsCached;
    forall k: Key {
      DrainedAt(s, peer, wanted, k);
    }
  }

  /** The outcome of one key after a drain. */
  lemma DrainedAt(s: State, peer: Peer, wanted: Peer, k: Key)
    requires Valid(s) && Consistent(s, peer, wanted)
    ensures var d, after := Drained(s), PeerAfter(peer, Sent(s));
            if Hits(d.pending, k) then
              if d.pending[k.index].action.Announce? then k in wanted && wanted[k] == PathOf(d.pending[k.index])
              else k !in wanted
            else SameAt(wanted, after, k)
  {
    OverlayAt(peer, Sent(s), PathOf, k);
    assert k in wanted || k !in wanted;
    assert Hits(Drained(s).pending, k) ==> Hits(s.pending, k);
  }

  /** With the cache on, nothing is announced that the peer already holds with these attributes. */
  lemma NothingSentTwice(s: State, peer: Peer, wanted: Peer, i: Index)
    requires s.cache && Consistent(s, peer, wanted) && i in Sent(s) && Sent(s)[i].action.Announce?
    ensures var c := Sent(s)[i];
            !(KeyOf(c) in peer && peer[KeyOf(c)].attributes == c.attributes)
  {
  }

  /** A change that takes the place of a pending change for another family loses that change: after
      the next drain the peer is as wanted if and only if it already held the lost outcome, and no next
      hop is held back. */
  lemma HijackLosesOutcome(s: State, peer: Peer, wanted: Peer, c: Change)
    requires Valid(s) && Consistent(s, peer, wanted) && Hijacks(s, c)
    ensures var t := Insert(s, c);
            PeerAfter(peer, Sent(t)) == Want(wanted, c) <==>
            SameAt(wanted, peer, KeyOf(s.pending[c.index])) && NextHopsCached(t)
  {
    var t, lost := Insert(s, c), KeyOf(s.pending[c.index]);
    var after, w := PeerAfter(peer, Sent(t)), Want(wanted, c);
    assert lost in wanted || lost !in wanted;
    assert !Hits(Sent(t), lost) && lost != KeyOf(c);
    OverlayAt(peer, Sent(t), PathOf, lost);
    assert SameAt(w, wanted, lost) && SameAt(after, peer, lost);
    assert after == w ==> SameAt(after, w, lost);
    if SameAt(wanted, peer, lost) {
      InsertKeepsConsistent(s, peer, wanted, c);
      InsertValid(s, c);
      PeerAfterIsWantedIff(t, peer, w);
    }
  }

  // ----- runs -----

  datatype Step = Insertion(change: Change) | Drain

  datatype World = World(store: State, peer: Peer, wanted: Peer)

  function Next(w: World, step: Step): World
    requires Valid(w.store)
  {
    match step
    case Insertion(c) => World(Insert(w.store, c), w.peer, Want(w.wanted, c))
    case Drain => World(Drained(w.store), PeerAfter(w.peer, Sent(w.store)), w.wanted)
  }

  lemma NextValid(w: World, step: Step)
    requires Valid(w.store)
    ensures Valid(Next(w, step).store)
  {
    match step
    case Insertion(c) => InsertValid(w.store, c);
    case Drain => DrainedValid(w.store);
  }

  function Run(w: World, steps: seq<Step>): (r: World)
    requires Valid(w.store)
    ensures Valid(r.store)
    decreases |steps|
  {
    if steps == [] then w else
      NextValid(w, steps[0]);
      Run(Next(w, steps[0]), steps[1..])
  }

  /** No change of the run takes the place of a pending change for another family. */
  predicate NoHijack(w: World, steps: seq<Step>)
    requires Valid(w.store)
    decreases |steps|
  {
    steps == [] ||
      (NextValid(w, steps[0]);
       && (steps[0].Insertion? ==> !Hijacks(w.store, steps[0].change))
       && NoHijack(Next(w, steps[0]), steps[1..]))
  }

  /** The last writer of every key wins; drains change nothing. */
  function LastWriter(wanted: Peer, steps: seq<Step>): Peer
    decreases |steps|
  {
    if steps == [] then wanted
    else LastWriter(if steps[0].Insertion? then Want(wanted, steps[0].change) else wanted, steps[1..])
  }

  function Fresh(cache: bool): World {
    World(State(cache, {}, map[], map[], map[], map[]), map[], map[])
  }

  function KeptAfter(w: World, kept: Peer, step: Step): Peer {
    if step.Insertion? then KeptOne(w.store, w.peer, kept, step.change) else kept
  }

  /** The table that the run can still bring the peer to. */
  function Kept(w: World, kept: Peer, steps: seq<Step>): Peer
    requires Valid(w.store)
    decreases |steps|
  {
    if steps == [] then kept
    else
      NextValid(w, steps[0]);
      Kept(Next(w, steps[0]), KeptAfter(w, kept, steps[0]), steps[1..])
  }

  /** What is pending was wanted last. */
  ghost predicate PendingIsWanted(s: State, kept: Peer, wanted: Peer) {
    forall k | Hits(s.pending, k) :: SameAt(kept, wanted, k)
  }

  lemma InsertKeepsPendingWanted(s: State, peer: Peer, kept: Peer, wanted: Peer, c: Change)
    requires Valid(s) && PendingIsWanted(s, kept, wanted)
    ensures PendingIsWanted(Insert(s, c), KeptOne(s, peer, kept, c), Want(wanted, c))
  {
    var t := Insert(s, c);
    InsertedPending(s, c);
    forall k | Hits(t.pending, k)
      ensures SameAt(KeptOne(s, peer, kept, c), Want(wanted, c), k)
    {
      KeptAt(s, peer, kept, c, k);
      assert k == KeyOf(c) || Hits(s.pending, k);
    }
  }

  lemma NextKept(w: World, kept: Peer, step: Step)
    requires Valid(w.store) && Consistent(w.store, w.peer, kept) && PendingIsWanted(w.store, kept, w.wanted)
    ensures var r, k := Next(w, step), KeptAfter(w, kept, step);
            && Valid(r.store) && Consistent(r.store, r.peer, k) && PendingIsWanted(r.store, k, r.wanted)
            && r.store.cache == w.store.cache
  {
    NextValid(w, step);
    match step {
      case Insertion(c) =>
        InsertedPending(w.store, c);
        InsertKeepsKept(w.store, w.peer, kept, c);
        InsertKeepsPendingWanted(w.store, w.peer, kept, w.wanted, c);
      case Drain => DrainConverges(w.store, w.peer, kept);
    }
  }

  lemma {:induction false} RunKept(w: World, kept: Peer, steps: seq<Step>)
    requires Valid(w.store) && Consistent(w.store, w.peer, kept) && PendingIsWanted(w.store, kept, w.wanted)
    ensures var r, k := Run(w, steps), Kept(w, kept, steps);
            && Consistent(r.store, r.peer, k) && PendingIsWanted(r.store, k, r.wanted)
            && r.wanted == LastWriter(w.wanted, steps) && r.store.cache == w.store.cache
    decreases |steps|
  {
    hide Valid, Consistent, PendingIsWanted, KeptAfter, Insert, Drained, PeerAfter, Want;
    if steps != [] {
      NextKept(w, kept, steps[0]);
      RunKept(Next(w, steps[0]), KeptAfter(w, kept, steps[0]), steps[1..]);
    }
  }

  lemma {:induction false} KeptWithoutHijack(w: World, steps: seq<Step>)
    requires Valid(w.store) && NoHijack(w, steps)
    ensures Kept(w, w.wanted, steps) == LastWriter(w.wanted, steps)
    decreases |steps|
  {
    hide Insert, Drained, PeerAfter, Want, Hijacks;
    if steps != [] {
      NextValid(w, steps[0]);
      KeptWithoutHijack(Next(w, steps[0]), steps[1..]);
    }
  }

  /** What one more step does to a run. */
  lemma {:induction false} RunAppend(w: World, steps: seq<Step>, x: Step)
    requires Valid(w.store)
    ensures Run(w, steps + [x]) == Next(Run(w, steps), x)
    ensures NoHijack(w, steps + [x]) <==>
            NoHijack(w, steps) && (x.Insertion? ==> !Hijacks(Run(w, steps).store, x.change))
    decreases |steps|
  {
    var all := steps + [x];
    NextValid(w, all[0]);
    if steps == [] {
      assert all == [x] && all[1..] == [];
      assert Run(Next(w, x), []) == Next(w, x) && NoHijack(Next(w, x), []);
    } else {
      assert all[1..] == steps[1..] + [x];
      RunAppend(Next(w, steps[0]), steps[1..], x);
    }
  }

  lemma {:induction false} LastWriterAppend(wanted: Peer, steps: seq<Step>, x: Step)
    ensures LastWriter(wanted, steps + [x]) ==
            if x.Insertion? then Want(LastWriter(wanted, steps), x.change) else LastWriter(wanted, steps)
    decreases |steps|
  {
    var all := steps + [x];
    if steps == [] {
      assert all == [x] && all[1..] == [];
    } else {
      assert all[1..] == steps[1..] + [x];
      LastWriterAppend(if steps[0].Insertion? then Want(wanted, steps[0].change) else wanted, steps[1..], x);
    }
  }

  /** Over every run from an empty store: a drain leaves the peer with the table that can still be
      reached, if and only if no announcement is held back that has a next hop other than the cached one,
      as never happens without the cache. That is the last-writer-wins table of all inserted changes if
      and only if moreover no outcome lost its place in the queue to a change of another family. With the
      cache on the announced routes are the peer's table. */
  lemma RunConverges(cache: bool, steps: seq<Step>)
    ensures var r, kept := Run(Fresh(cache), steps), Kept(Fresh(cache), map[], steps);
            var d := Next(r, Drain);
            && (d.peer == kept <==> NextHopsCached(r.store))
            && (d.peer == LastWriter(map[], steps) <==> NextHopsCached(r.store) && kept == LastWriter(map[], steps))
            && (cache ==> Mirrors(d.store.announced, d.peer))
            && (!cache ==> NextHopsCached(r.store))
  {
    var w := Fresh(cache);
    RunKept(w, map[], steps);
    var r, kept := Run(w, steps), Kept(w, map[], steps);
    DrainConverges(r.store, r.peer, kept);
    DrainedIsKept(r.store, r.peer, kept, r.wanted);
  }

  /** When a drain reaches the wanted table, that is the one that could still be reached. */
  lemma DrainedIsKept(s: State, peer: Peer, kept: Peer, wanted: Peer)
    requires Consistent(s, peer, kept) && PendingIsWanted(s, kept, wanted)
    ensures PeerAfter(peer, Sent(s)) == wanted ==> kept == wanted
  {
    var after := PeerAfter(peer, Sent(s));
    if after == wanted {
      forall k: Key
        ensures SameAt(kept, wanted, k)
      {
        OverlayAt(peer, Sent(s), PathOf, k);
        assert k in kept || k !in kept;
        assert Hits(Sent(s), k) ==> Hits(s.pending, k);
      }
      SameEverywhere(kept, wanted);
    }
  }

  // ----- which changes converge in every run -----

  /** Every change of the run is one of the allowed ones. */
  ghost predicate UsesOnly(steps: seq<Step>, allowed: Change -> bool) {
    forall j | 0 <= j < |steps| && steps[j].Insertion? :: allowed(steps[j].change)
  }

  /** For each route the attribute index determines the next hop. */
  ghost predicate Determined(allowed: Change -> bool) {
    forall c: Change, d: Change
      | allowed(c) && allowed(d) && c.action.Announce? && d.action.Announce?
        && KeyOf(c) == KeyOf(d) && c.attributes == d.attributes ::
      c.nextHop == d.nextHop
  }

  /** A route that is announced shares its index with no change of another family. */
  ghost predicate Unshared(allowed: Change -> bool) {
    forall c: Change, d: Change | allowed(c) && allowed(d) && c.action.Announce? && c.index == d.index ::
      c.family == d.family
  }

  ghost predicate HoldsOnly(s: State, allowed: Change -> bool) {
    (forall i | i in s.pending :: allowed(s.pending[i])) && (forall k | k in s.announced :: allowed(s.announced[k]))
  }

  lemma DrainHoldsOnly(s: State, allowed: Change -> bool)
    requires HoldsOnly(s, allowed)
    ensures HoldsOnly(Drained(s), allowed)
  {
    forall k: Key {
      OverlayAt(s.announced, Sent(s), (c: Change) => c, k);
    }
  }

  /** An announcement that differs from a sent one in the next hop only is held back: the peer keeps the
      old next hop. */
  lemma NextHopHeldBack(c: Change, d: Change)
    requires c.action.Announce? && d.action.Announce?
    requires KeyOf(c) == KeyOf(d) && c.attributes == d.attributes && c.nextHop != d.nextHop
    ensures var steps := [Insertion(c), Drain, Insertion(d)];
            && NoHijack(Fresh(true), steps)
            && Next(Run(Fresh(true), steps), Drain).peer == map[KeyOf(c) := PathOf(c)]
            && LastWriter(map[], steps) == map[KeyOf(c) := PathOf(d)]
  {
    var w, steps := Fresh(true), [Insertion(c), Drain, Insertion(d)];
    FirstDrain(c);
    RunOfThree(w, Insertion(c), Drain, Insertion(d));
    LastWriterOfTwo(c, d);
    assert Want(Want(map[], c), d) == map[KeyOf(c) := PathOf(d)];
    var w1 := Next(w, Insertion(c));
    NextValid(w, Insertion(c));
    NextValid(w1, Drain);
    assert !Hijacks(Next(w1, Drain).store, d);
    hide Run, NoHijack, Insert, Drained, PeerAfter;
    HeldBack(Next(w1, Drain), c, d);
  }

  lemma RunOfThree(w: World, x: Step, y: Step, z: Step)
    requires Valid(w.store)
    ensures Valid(Next(w, x).store) && Valid(Next(Next(w, x), y).store)
    ensures Run(w, [x, y, z]) == Next(Next(Next(w, x), y), z)
    ensures NoHijack(w, [x, y, z]) <==>
            && (x.Insertion? ==> !Hijacks(w.store, x.change))
            && (y.Insertion? ==> !Hijacks(Next(w, x).store, y.change))
            && (z.Insertion? ==> !Hijacks(Next(Next(w, x), y).store, z.change))
  {
    hide Next, Hijacks;
    var none: seq<Step> := [];
    RunAppend(w, none, x);
    RunAppend(w, [x], y);
    RunAppend(w, [x] + [y], z);
    assert none + [x] == [x] && [x] + [y] + [z] == [x, y, z];
    NextValid(w, x);
    NextValid(Next(w, x), y);
  }

  lemma LastWriterOfTwo(c: Change, d: Change)
    ensures LastWriter(map[], [Insertion(c), Drain, Insertion(d)]) == Want(Want(map[], c), d)
  {
    var none: seq<Step> := [];
    LastWriterAppend(map[], none, Insertion(c));
    LastWriterAppend(map[], [Insertion(c)], Drain);
    LastWriterAppend(map[], [Insertion(c)] + [Drain], Insertion(d));
    assert none + [Insertion(c)] == [Insertion(c)];
    assert [Insertion(c)] + [Drain] + [Insertion(d)] == [Insertion(c), Drain, Insertion(d)];
  }

  lemma HeldBack(w: World, c: Change, d: Change)
    requires c.action.Announce? && d.action.Announce? && KeyOf(c) == KeyOf(d) && c.attributes == d.attributes
    requires Valid(w.store) && w.store.cache && w.store.pending == map[] && w.store.announced == map[KeyOf(c) := c]
    ensures Next(Next(w, Insertion(d)), Drain).peer == w.peer
  {
    InsertValid(w.store, d);
    InsertedPending(w.store, d);
    var t := Insert(w.store, d);
    assert t.pending == map[d.index := d] && Duplicate(t, d);
    assert Sent(t) == map[];
    OverlayNothing(w.peer, PathOf);
  }

  lemma FirstDrain(c: Change)
    requires c.action.Announce?
    ensures var w := Next(Next(Fresh(true), Insertion(c)), Drain);
            && w.peer == map[KeyOf(c) := PathOf(c)] && w.store.announced == map[KeyOf(c) := c]
            && w.store.pending == map[] && w.store.cache
  {
    var w1 := Next(Fresh(true), Insertion(c));
    assert w1.store.pending == map[c.index := c] && Sent(w1.store) == map[c.index := c];
    var none: Peer := map[];
    var cold: map<Key, Change> := map[];
    forall k: Key
      ensures SameAt(PeerAfter(none, Sent(w1.store)), map[KeyOf(c) := PathOf(c)], k)
      ensures SameAt(Overlay(cold, Sent(w1.store), (c: Change) => c), map[KeyOf(c) := c], k)
    {
      OverlayAt(none, Sent(w1.store), PathOf, k);
      OverlayAt(cold, Sent(w1.store), (c: Change) => c, k);
    }
    SameEverywhere(PeerAfter(none, Sent(w1.store)), map[KeyOf(c) := PathOf(c)]);
    SameEverywhere(Overlay(cold, Sent(w1.store), (c: Change) => c), map[KeyOf(c) := c]);
  }

  /** With the cache on, a drain after the run leaves the peer with the last-writer-wins table. */
  ghost predicate Converges(steps: seq<Step>) {
    Next(Run(Fresh(true), steps), Drain).peer == LastWriter(map[], steps)
  }

  /** What a run of allowed changes keeps: the store is consistent with the wanted table. */
  ghost predicate Follows(w: World, allowed: Change -> bool) {
    Valid(w.store) && w.store.cache && Consistent(w.store, w.peer, w.wanted) && HoldsOnly(w.store, allowed)
  }

  /** A pending change that is replaced by one of another family is a withdrawal of what the peer does not
      have. */
  lemma NothingLost(w: World, c: Change, allowed: Change -> bool)
    requires Unshared(allowed) && Follows(w, allowed) && allowed(c) && Hijacks(w.store, c)
    ensures SameAt(w.wanted, w.peer, KeyOf(w.store.pending[c.index]))
  {
    var p := w.store.pending[c.index];
    var lost := KeyOf(p);
    assert p.index == c.index && allowed(p);
    assert p.action.Withdraw? && Hits(w.store.pending, lost);
    forall k | k in w.store.announced && k.index == c.index
      ensures k.family == c.family
    {
      var a := w.store.announced[k];
      assert allowed(a) && KeyOf(a) == k && a.action.Announce?;
    }
    assert lost in w.wanted || lost !in w.wanted;
  }

  lemma NextFollows(w: World, step: Step, allowed: Change -> bool)
    requires Unshared(allowed) && Follows(w, allowed) && (step.Insertion? ==> allowed(step.change))
    ensures Follows(Next(w, step), allowed)
  {
    NextValid(w, step);
    match step
    case Insertion(c) =>
      if Hijacks(w.store, c) {
        NothingLost(w, c, allowed);
      }
      InsertKeepsConsistent(w.store, w.peer, w.wanted, c);
      InsertedPending(w.store, c);
    case Drain =>
      DrainConverges(w.store, w.peer, w.wanted);
      DrainHoldsOnly(w.store, allowed);
  }

  lemma {:induction false} RunFollows(w: World, steps: seq<Step>, allowed: Change -> bool)
    requires Unshared(allowed) && Follows(w, allowed) && UsesOnly(steps, allowed)
    ensures Follows(Run(w, steps), allowed) && Run(w, steps).wanted == LastWriter(w.wanted, steps)
    decreases |steps|
  {
    if steps != [] {
      NextFollows(w, steps[0], allowed);
      assert forall j | 0 <= j < |steps[1..]| :: steps[1..][j] == steps[j + 1];
      hide Unshared;
      RunFollows(Next(w, steps[0]), steps[1..], allowed);
    }
  }

  /** Every run of allowed changes converges if and only if for each route the attribute index determines
      the next hop, and no announced route shares its index with a change of another family. */
  lemma RunsConvergeIff(allowed: Change -> bool)
    ensures (forall steps | UsesOnly(steps, allowed) :: Converges(steps)) <==> Determined(allowed) && Unshared(allowed)
  {
    hide Converges, UsesOnly, Determined, Unshared;
    if !Determined(allowed) {
      var steps := UndeterminedRun(allowed);
    } else if !Unshared(allowed) {
      var steps := SharedRun(allowed);
    } else {
      forall steps | UsesOnly(steps, allowed)
        ensures Converges(steps)
      {
        AllowedRunConverges(steps, allowed);
      }
    }
  }

  lemma UndeterminedRun(allowed: Change -> bool) returns (steps: seq<Step>)
    requires !Determined(allowed)
    ensures UsesOnly(steps, allowed) && !Converges(steps)
  {
    hide Run, NoHijack, LastWriter, Next;
    var c: Change, d: Change :| allowed(c) && allowed(d) && c.action.Announce? && d.action.Announce?
      && KeyOf(c) == KeyOf(d) && c.attributes == d.attributes && c.nextHop != d.nextHop;
    NextHopHeldBack(c, d);
    assert map[KeyOf(c) := PathOf(c)][KeyOf(c)] != map[KeyOf(c) := PathOf(d)][KeyOf(c)];
    steps := [Insertion(c), Drain, Insertion(d)];
  }

  lemma SharedRun(allowed: Change -> bool) returns (steps: seq<Step>)
    requires !Unshared(allowed)
    ensures UsesOnly(steps, allowed) && !Converges(steps)
  {
    var c: Change, d: Change :|
      allowed(c) && allowed(d) && c.action.Announce? && c.index == d.index && c.family != d.family;
    steps := [Insertion(c), Insertion(d)];
    LostToAnotherFamily(c, d);
  }

  /** An announcement that a change of another family replaces in the queue never reaches the peer. */
  lemma LostToAnotherFamily(c: Change, d: Change)
    requires c.action.Announce? && c.index == d.index && c.family != d.family
    ensures var steps := [Insertion(c), Insertion(d)];
            && KeyOf(c) in LastWriter(map[], steps)
            && KeyOf(c) !in Next(Run(Fresh(true), steps), Drain).peer
  {
    var w := Fresh(true);
    var empty: Peer := map[];
    RunOfTwo(c, d);
    var w1 := Next(w, Insertion(c));
    NextValid(w, Insertion(c));
    InsertedPending(w1.store, d);
    var t := Insert(w1.store, d);
    OverlayAt(empty, Sent(t), PathOf, KeyOf(c));
  }

  lemma RunOfTwo(c: Change, d: Change)
    ensures var w, steps := Fresh(true), [Insertion(c), Insertion(d)];
            && Valid(Next(w, Insertion(c)).store)
            && Run(w, steps) == Next(Next(w, Insertion(c)), Insertion(d))
            && LastWriter(map[], steps) == Want(Want(map[], c), d)
  {
    var w, none: seq<Step> := Fresh(true), [];
    NextValid(w, Insertion(c));
    hide Next, Want;
    RunAppend(w, none, Insertion(c));
    RunAppend(w, [Insertion(c)], Insertion(d));
    LastWriterAppend(map[], none, Insertion(c));
    LastWriterAppend(map[], [Insertion(c)], Insertion(d));
    assert none + [Insertion(c)] == [Insertion(c)] && [Insertion(c)] + [Insertion(d)] == [Insertion(c), Insertion(d)];
  }

  lemma AllowedRunConverges(steps: seq<Step>, allowed: Change -> bool)
    requires Determined(allowed) && Unshared(allowed) && UsesOnly(steps, allowed)
    ensures Converges(steps)
  {
    RunFollows(Fresh(true), steps, allowed);
    FollowedConverges(Run(Fresh(true), steps), allowed);
  }

  lemma FollowedConverges(w: World, allowed: Change -> bool)
    requires Determined(allowed) && Follows(w, allowed)
    ensures NextHopsCached(w.store) && Next(w, Drain).peer == w.wanted
  {
    RouteKeysMatch(w.store, allowed);
    DrainConverges(w.store, w.peer, w.wanted);
  }

  /** Where the attributes name the next hop, as they do for IPv4 unicast and multicast, every run
      converges in which no announced route shares its index with a change of another family. */
  lemma NextHopsInAttributesConverge(steps: seq<Step>, allowed: Change -> bool, hopOf: (Family, Attributes) -> NextHop)
    requires UsesOnly(steps, allowed) && Unshared(allowed)
    requires forall c: Change | allowed(c) && c.action.Announce? :: c.nextHop == hopOf(c.family, c.attributes)
    ensures Converges(steps)
  {
    AllowedRunConverges(steps, allowed);
  }

  lemma RouteKeysMatch(s: State, allowed: Change -> bool)
    requires Valid(s) && Determined(allowed) && HoldsOnly(s, allowed)
    ensures NextHopsCached(s)
  {
    forall i | i in s.pending && Duplicate(s, s.pending[i])
      ensures s.announced[KeyOf(s.pending[i])].nextHop == s.pending[i].nextHop
    {
      var c, d := s.announced[KeyOf(s.pending[i])], s.pending[i];
      assert KeyOf(c) == KeyOf(d) && c.action.Announce?;
    }
  }

  /** An IPv6 route whose next hop moves: its attributes do not name the next hop, and the peer keeps
      sending traffic to the old one. */
  lemma MovedNextHopExample()
    ensures var key := Key("ipv6 unicast", "2001:db8::/32");
            var before := Change(key.family, key.index, Announce, "origin igp", "fe80::a");
            var moved := Change(key.family, key.index, Announce, "origin igp", "fe80::b");
            var steps := [Insertion(before), Drain, Insertion(moved)];
            && Next(Run(Fresh(true), steps), Drain).peer == map[key := Path("origin igp", "fe80::a")]
            && LastWriter(map[], steps) == map[key := Path("origin igp", "fe80::b")]
  {
    var before := Change("ipv6 unicast", "2001:db8::/32", Announce, "origin igp", "fe80::a");
    var moved := Change("ipv6 unicast", "2001:db8::/32", Announce, "origin igp", "fe80::b");
    assert before.nextHop[6] != moved.nextHop[6];
    NextHopHeldBack(before, moved);
  }

  // ----- which runs raise -----

  /** No insertion of the run looks up the announced routes of a family that has none. */
  predicate RaisesNowhere(w: World, steps: seq<Step>)
    requires Valid(w.store)
    decreases |steps|
  {
    steps == [] ||
      (NextValid(w, steps[0]);
       && (steps[0].Insertion? ==> !Fails(w.store, steps[0].change))
       && RaisesNowhere(Next(w, steps[0]), steps[1..]))
  }

  lemma {:induction false} RaisesAppend(w: World, steps: seq<Step>, x: Step)
    requires Valid(w.store)
    ensures RaisesNowhere(w, steps + [x]) <==>
            RaisesNowhere(w, steps) && (x.Insertion? ==> !Fails(Run(w, steps).store, x.change))
    decreases |steps|
  {
    var all := steps + [x];
    NextValid(w, all[0]);
    if steps == [] {
      assert all == [x] && all[1..] == [];
      assert RaisesNowhere(Next(w, x), []);
    } else {
      assert all[1..] == steps[1..] + [x];
      RaisesAppend(Next(w, steps[0]), steps[1..], x);
    }
  }

  ghost predicate Queues(s: State, f: Family) {
    exists i :: i in s.pending && s.pending[i].action.Announce? && s.pending[i].family == f
  }

  /** Some drain of the run found an announcement for the family in the queue. */
  ghost predicate DrainedFor(steps: seq<Step>, f: Family) {
    exists d: nat :: d < |steps| && steps[d].Drain? && Queues(Run(Fresh(true), steps[..d]).store, f)
  }

  /** A family has an entry in the cache from the first drain on that sends one of its routes. */
  lemma {:induction false} FamiliesAreDrained(steps: seq<Step>, f: Family)
    ensures Run(Fresh(true), steps).store.cache
    ensures f in Run(Fresh(true), steps).store.families <==> DrainedFor(steps, f)
    decreases |steps|
  {
    if steps != [] {
      var init, x := steps[..|steps| - 1], steps[|steps| - 1];
      assert steps == init + [x];
      FamiliesAreDrained(init, f);
      RunAppend(Fresh(true), init, x);
      DrainedForNext(init, x, f);
      var s := Run(Fresh(true), init).store;
      match x {
        case Insertion(c) => InsertedPending(s, c);
        case Drain =>
          DrainAddsFamily(s, f);
      }
    }
  }

  lemma DrainedForNext(steps: seq<Step>, x: Step, f: Family)
    ensures DrainedFor(steps + [x], f) <==>
            DrainedFor(steps, f) || (x.Drain? && Queues(Run(Fresh(true), steps).store, f))
  {
    hide Run, Queues;
    var all := steps + [x];
    assert all[..|steps|] == steps && all[|steps|] == x;
    assert forall d: nat | d < |steps| :: all[d] == steps[d] && all[..d] == steps[..d];
    if d: nat :| d < |steps| && steps[d].Drain? && Queues(Run(Fresh(true), steps[..d]).store, f) {
      assert all[d].Drain? && Queues(Run(Fresh(true), all[..d]).store, f);
    }
    if x.Drain? && Queues(Run(Fresh(true), steps).store, f) {
      assert all[|steps|].Drain? && Queues(Run(Fresh(true), all[..|steps|]).store, f);
    }
  }

  lemma DrainAddsFamily(s: State, f: Family)
    requires Valid(s) && s.cache
    ensures f in Drained(s).families <==> f in s.families || Queues(s, f)
  {
    if f !in s.families {
      assert forall i | i in s.pending && s.pending[i].family == f :: i in Sent(s);
    }
  }

  /** With the cache on, an insertion raises if and only if it withdraws what is still queued as an
      announcement, before any drain has sent a route of its family. */
  lemma InsertionRaisesIff(steps: seq<Step>, c: Change)
    ensures var s := Run(Fresh(true), steps).store;
            Fails(s, c) <==>
            && c.action.Withdraw? && c.index in s.pending && s.pending[c.index].action.Announce?
            && !DrainedFor(steps, c.family)
  {
    FamiliesAreDrained(steps, c.family);
  }

  /** A route withdrawn before the first drain: the lookup raises. The announcement is gone by then, so
      that the peer is not sent what is not wanted any more. */
  lemma WithdrawnAtOnce(c: Change, d: Change)
    requires c.action.Announce? && d.action.Withdraw? && KeyOf(c) == KeyOf(d)
    ensures var steps := [Insertion(c), Insertion(d)];
            && !RaisesNowhere(Fresh(true), steps)
            && Run(Fresh(true), steps).store.pending == map[]
            && LastWriter(map[], steps) == map[] == Next(Run(Fresh(true), steps), Drain).peer
  {
    var w := Fresh(true);
    var empty: Peer := map[];
    RunOfTwo(c, d);
    RaisesAppend(w, [Insertion(c)], Insertion(d));
    RunAppend(w, [], Insertion(c));
    assert [] + [Insertion(c)] == [Insertion(c)] && [Insertion(c)] + [Insertion(d)] == [Insertion(c), Insertion(d)];
    var w1 := Next(w, Insertion(c));
    NextValid(w, Insertion(c));
    assert Fails(w1.store, d);
    InsertedPending(w1.store, d);
    var t := Insert(w1.store, d);
    assert t.pending == map[] && Sent(t) == map[];
    assert Want(Want(empty, c), d) == empty;
    OverlayNothing(empty, PathOf);
  }

  /** An index used by one family only is never hijacked. */
  ghost predicate OneFamilyPerIndex(steps: seq<Step>, familyOf: Index -> Family) {
    forall j | 0 <= j < |steps| && steps[j].Insertion? :: steps[j].change.family == familyOf(steps[j].change.index)
  }

  ghost predicate FamiliesAre(pending: Pending, familyOf: Index -> Family) {
    forall i | i in pending :: pending[i].family == familyOf(i)
  }

  lemma InsertKeepsFamilies(s: State, c: Change, familyOf: Index -> Family)
    requires Valid(s) && FamiliesAre(s.pending, familyOf) && c.family == familyOf(c.index)
    ensures FamiliesAre(Insert(s, c).pending, familyOf)
  {
  }

  lemma {:induction false} OneFamilyNeverHijacks(w: World, steps: seq<Step>, familyOf: Index -> Family)
    requires Valid(w.store) && OneFamilyPerIndex(steps, familyOf)
    requires FamiliesAre(w.store.pending, familyOf)
    ensures NoHijack(w, steps)
    decreases |steps|
  {
    if steps != [] {
      NextValid(w, steps[0]);
      assert forall j | 0 <= j < |steps[1..]| :: steps[1..][j] == steps[j + 1];
      var next := Next(w, steps[0]);
      if steps[0].Insertion? {
        InsertKeepsFamilies(w.store, steps[0].change, familyOf);
      }
      OneFamilyNeverHijacks(next, steps[1..], familyOf);
    }
  }

  /** Two announcements for different families that share an index. */
  const UNICAST := Change("ipv4 unicast", "10.0.0.0/8", Announce, "a", "192.0.2.1")
  const MULTICAST := Change("ipv4 multicast", "10.0.0.0/8", Announce, "b", "192.0.2.2")

  lemma FamiliesDiffer()
    ensures UNICAST.family != MULTICAST.family && UNICAST.index == MULTICAST.index
  {
    assert UNICAST.family[5] != MULTICAST.family[5];
  }

  /** Two families that share an index: the announcement of the first never reaches the peer. */
  lemma SharedIndexExample()
    ensures var steps := [Insertion(UNICAST), Insertion(MULTICAST)];
            KeyOf(UNICAST) in LastWriter(map[], steps) &&
            KeyOf(UNICAST) !in Next(Run(Fresh(true), steps), Drain).peer
  {
    FamiliesDiffer();
    LostToAnotherFamily(UNICAST, MULTICAST);
  }

  // ----- reconnecting -----

  ghost function Resendable(s: State, families: set<Family>): set<Key> {
    set k | k in s.announced && k.family in families
  }

  /** The queue of `t` is that of `s` after the announced routes under `keys` have been queued again;
      when routes share an index the last one queued stays. */
  ghost predicate Requeued(s: State, keys: set<Key>, t: State)
    requires keys <= s.announced.Keys
  {
    && Valid(t) && t.cache == s.cache
    && forall i :: RequeuedAt(s, keys, t.pending, i)
  }

  ghost predicate RequeuedAt(s: State, keys: set<Key>, pending: Pending, i: Index)
    requires keys <= s.announced.Keys
  {
    if exists k :: k in keys && k.index == i
    then i in pending && KeyOf(pending[i]) in keys && pending[i] == s.announced[KeyOf(pending[i])]
    else (i in pending <==> i in s.pending) && (i in s.pending ==> pending[i] == s.pending[i])
  }

  function Without(announced: map<Key, Change>, families: set<Family>): map<Key, Change> {
    map k | k in announced && k.family !in families :: announced[k]
  }

  /** `t` is `s` after every announced route of the families has been queued again and the cache of
      these families has been emptied. */
  ghost predicate Resent(s: State, families: set<Family>, t: State) {
    && Requeued(s, Resendable(s, families), t)
    && t.announced == Without(s.announced, families)
    && t.families == s.families + families
  }

  lemma RequeueOne(s: State, keys: set<Key>, t: State, k: Key)
    requires Valid(s) && keys <= s.announced.Keys && k in s.announced && Requeued(s, keys, t)
    ensures Requeued(s, keys + {k}, Insert(t, s.announced[k]))
  {
    var c := s.announced[k];
    InsertValid(t, c);
    assert Valid(Insert(t, c));
    InsertedPending(t, c);
    hide Insert;
    var u := Insert(t, c);
    assert KeyOf(c) == k && c.action.Announce?;
    hide Valid, Cancels, RequeuedAt;
    assert u.pending == t.pending[k.index := c];
    forall i
      ensures RequeuedAt(s, keys + {k}, u.pending, i)
    {
      assert RequeuedAt(s, keys, t.pending, i);
      RequeuedNext(s, keys, t.pending, k, i);
    }
  }

  lemma RequeuedNext(s: State, keys: set<Key>, pending: Pending, k: Key, i: Index)
    requires keys <= s.announced.Keys && k in s.announced && KeyOf(s.announced[k]) == k
    requires RequeuedAt(s, keys, pending, i)
    ensures RequeuedAt(s, keys + {k}, pending[k.index := s.announced[k]], i)
  {
    assert k in keys + {k};
    assert forall l | l in keys :: l in keys + {k};
  }

  /** Every wanted route belongs to one of the families, and no two share an index. */
  ghost predicate Rebuildable(wanted: Peer, families: set<Family>) {
    && (forall k | k in wanted :: k.family in families)
    && (forall k, l | k in wanted && l in wanted && k.index == l.index :: k == l)
  }

  /** Nothing is left to send: what is pending is held back, under a key that the peer has too. */
  lemma KeysSettled(s: State, held: Peer, wanted: Peer)
    requires s.cache && Valid(s) && Consistent(s, held, wanted) && Sent(s) == map[]
    ensures wanted.Keys == held.Keys == s.announced.Keys
    ensures held == wanted <==> NextHopsCached(s)
  {
    OverlayNothing(held, PathOf);
    PeerAfterIsWantedIff(s, held, wanted);
    forall k: Key
      ensures k in wanted <==> k in held
    {
      if Hits(s.pending, k) {
        assert k.index !in Sent(s);
        HeldBackIsAtPeer(s, held, wanted, k);
      } else {
        assert SameAt(wanted, held, k) || (k !in wanted && k !in held);
      }
    }
  }

  lemma ResentConsistent(s: State, held: Peer, wanted: Peer, families: set<Family>, t: State)
    requires s.cache && Valid(s) && Consistent(s, held, wanted) && Sent(s) == map[] && Resent(s, families, t)
    requires Rebuildable(wanted, families)
    ensures Consistent(t, map[], held) && t.announced == map[]
  {
    KeysSettled(s, held, wanted);
    forall k: Key
      ensures if Hits(t.pending, k) then
                if t.pending[k.index].action.Announce? then k in held && held[k] == PathOf(t.pending[k.index])
                else k !in held
              else k !in held
    {
      assert RequeuedAt(s, Resendable(s, families), t.pending, k.index);
      KeptPendingIsHeld(s, held, wanted, k);
      if k in held {
        assert k in Resendable(s, families);
        var l := KeyOf(t.pending[k.index]);
        assert l in Resendable(s, families) && l in wanted && l.index == k.index;
      }
    }
  }

  lemma KeptPendingIsHeld(s: State, held: Peer, wanted: Peer, k: Key)
    requires Consistent(s, held, wanted) && Sent(s) == map[]
    ensures Hits(s.pending, k) ==> k in held
  {
    if Hits(s.pending, k) {
      assert k.index !in Sent(s);
      HeldBackIsAtPeer(s, held, wanted, k);
    }
  }

  /** Routes of a family that is not resent are not sent either: they are still cached. */
  lemma UnconfiguredStaysAway(s: State, held: Peer, wanted: Peer, families: set<Family>, t: State, k: Key)
    requires s.cache && Valid(s) && Consistent(s, held, wanted) && Sent(s) == map[] && Resent(s, families, t)
    requires k in wanted && k.family !in families
    ensures k !in PeerAfter(map[], Sent(t))
  {
    OverlayAt(map[], Sent(t), PathOf, k);
    assert RequeuedAt(s, Resendable(s, families), t.pending, k.index);
    if Hits(t.pending, k) {
      assert k !in Resendable(s, families);
      assert Hits(s.pending, k) && k.index !in Sent(s);
      assert Duplicate(t, t.pending[k.index]);
    }
  }

  /** With the cache on, from a store with nothing left to send: once the peer has forgotten everything,
      queueing the announced routes again and draining rebuilds what the peer held if and only if all
      its families are configured and no two of its routes share an index; it rebuilds the wanted table
      if and only if moreover no next hop is held back. */
  lemma ReconnectRebuilds(s: State, held: Peer, wanted: Peer, families: set<Family>, t: State)
    requires s.cache && Valid(s) && Consistent(s, held, wanted) && Sent(s) == map[] && Resent(s, families, t)
    ensures PeerAfter(map[], Sent(t)) == held <==> Rebuildable(wanted, families)
    ensures PeerAfter(map[], Sent(t)) == wanted <==> Rebuildable(wanted, families) && NextHopsCached(s)
    ensures Rebuildable(wanted, families) ==> Consistent(Drained(t), held, held)
  {
    KeysSettled(s, held, wanted);
    if Rebuildable(wanted, families) {
      ResentConsistent(s, held, wanted, families, t);
      DrainConverges(t, map[], held);
      assert NextHopsCached(t);
    } else if k :| k in wanted && k.family !in families {
      UnconfiguredStaysAway(s, held, wanted, families, t, k);
    } else {
      var k, l :| k in wanted && l in wanted && k.index == l.index && k != l;
      OverlayAt(map[], Sent(t), PathOf, k);
      OverlayAt(map[], Sent(t), PathOf, l);
      assert !(Hits(Sent(t), k) && Hits(Sent(t), l));
    }
  }

  /** The reset at the time of the reconnection drains the queue into the cache, whatever the peer
      held: after it the store is consistent with a peer that has received all updates, nothing is left
      to send, and the same next hops are held back. */
  lemma ResetDrains(s: State, peer: Peer, wanted: Peer)
    requires Valid(s) && Consistent(s, peer, wanted)
    ensures var d, held := Drained(s), PeerAfter(peer, Sent(s));
            && Valid(d) && Consistent(d, held, wanted) && Sent(d) == map[]
            && (NextHopsCached(d) <==> NextHopsCached(s))
  {
    var d, held := Drained(s), PeerAfter(peer, Sent(s));
    DrainedValid(s);
    DrainConverges(s, peer, wanted);
    DrainedSendsNothing(s);
    PeerAfterIsWantedIff(d, held, wanted);
    OverlayNothing(held, PathOf);
  }

  /** After any run from an empty store with the cache on, a reconnection rebuilds what the peer has after
      the drain under that condition; and, unless an outcome was lost to another family, everything
      wanted at that time if and only if moreover no next hop is held back. */
  lemma ReconnectAfterRun(steps: seq<Step>, families: set<Family>, t: State)
    requires Resent(Drained(Run(Fresh(true), steps).store), families, t)
    ensures var r, wanted := Run(Fresh(true), steps), LastWriter(map[], steps);
            var held, rebuilt := Next(r, Drain).peer, PeerAfter(map[], Sent(t));
            && (rebuilt == held <==> Rebuildable(held, families))
            && (Kept(Fresh(true), map[], steps) == wanted ==>
                  (rebuilt == wanted <==> Rebuildable(wanted, families) && NextHopsCached(r.store)))
  {
    RunKept(Fresh(true), map[], steps);
    var r, kept := Run(Fresh(true), steps), Kept(Fresh(true), map[], steps);
    hide Run, Kept, LastWriter, Drained, PeerAfter, Resent, Rebuildable, NextHopsCached, Consistent;
    ReconnectAt(r.store, r.peer, kept, families, t);
  }

  /** A reset and a resend from any store. */
  lemma ReconnectAt(s: State, peer: Peer, wanted: Peer, families: set<Family>, t: State)
    requires s.cache && Valid(s) && Consistent(s, peer, wanted) && Resent(Drained(s), families, t)
    ensures var held, rebuilt := PeerAfter(peer, Sent(s)), PeerAfter(map[], Sent(t));
            && (rebuilt == held <==> Rebuildable(held, families))
            && (rebuilt == wanted <==> Rebuildable(wanted, families) && NextHopsCached(s))
  {
    ResetDrains(s, peer, wanted);
    var d, held := Drained(s), PeerAfter(peer, Sent(s));
    assert d.cache;
    hide Drained, PeerAfter, Resent, Rebuildable, NextHopsCached, Consistent;
    KeysSettled(d, held, wanted);
    ReconnectRebuilds(d, held, wanted, families, t);
    RebuildableByKeys(held, wanted, families);
  }

  /** Two families that share an index, sent one after the other: the peer has both routes, and a
      reconnection brings back one of them at most. */
  lemma SharedIndexReconnectExample(families: set<Family>, t: State)
    requires Resent(Drained(Run(Fresh(true), [Insertion(UNICAST), Drain, Insertion(MULTICAST)]).store), families, t)
    ensures var steps := [Insertion(UNICAST), Drain, Insertion(MULTICAST)];
            && Next(Run(Fresh(true), steps), Drain).peer == LastWriter(map[], steps)
            && PeerAfter(map[], Sent(t)) != LastWriter(map[], steps)
  {
    var steps := [Insertion(UNICAST), Drain, Insertion(MULTICAST)];
    FamiliesDiffer();
    BothSent(UNICAST, MULTICAST);
    hide Run, Resent, Kept, Next, Drained, PeerAfter;
    RunConverges(true, steps);
    LastWriterOfTwo(UNICAST, MULTICAST);
    var wanted := LastWriter(map[], steps);
    assert KeyOf(UNICAST) in wanted && KeyOf(MULTICAST) in wanted;
    ReconnectAfterRun(steps, families, t);
  }

  lemma BothSent(c: Change, d: Change)
    requires c.action.Announce? && d.action.Announce? && c.family != d.family
    ensures var w, steps := Fresh(true), [Insertion(c), Drain, Insertion(d)];
            Kept(w, map[], steps) == LastWriter(map[], steps) && NextHopsCached(Run(w, steps).store)
  {
    var w, steps := Fresh(true), [Insertion(c), Drain, Insertion(d)];
    RunOfThree(w, Insertion(c), Drain, Insertion(d));
    FirstDrain(c);
    var v := Next(Next(w, Insertion(c)), Drain);
    InsertedPending(v.store, d);
    assert !Hijacks(v.store, d);
    assert NoHijack(w, steps);
    KeptWithoutHijack(w, steps);
  }

  lemma RebuildableByKeys(a: Peer, b: Peer, families: set<Family>)
    requires a.Keys == b.Keys
    ensures Rebuildable(a, families) <==> Rebuildable(b, families)
  {
  }

  // ----- refreshing the routes of some families -----

  /** The family is one of those asked for, or any when none are named; and it is configured. */
  predicate IsAsked(asked: set<Family>, families: set<Family>, f: Family) {
    f in families && (asked == {} || f in asked)
  }

  /** What a request for the routes of some families does: the cache forgets exactly the routes of these
      families, and they are pending again, as they were announced; where several share an index, one
      of them is. Nothing else is queued or forgotten. */
  ghost predicate Refreshed(s: State, asked: set<Family>, families: set<Family>, t: State) {
    && (forall k :: k in t.announced <==> k in s.announced && !IsAsked(asked, families, k.family))
    && (forall k | k in t.announced :: t.announced[k] == s.announced[k])
    && (forall i :: RefreshedAt(s, asked, families, t, i))
  }

  ghost predicate RefreshedAt(s: State, asked: set<Family>, families: set<Family>, t: State, i: Index) {
    if exists k :: k in s.announced && k.index == i && IsAsked(asked, families, k.family) then
      exists k :: k in s.announced && k.index == i && IsAsked(asked, families, k.family)
                  && i in t.pending && t.pending[i] == s.announced[k]
    else (i in t.pending <==> i in s.pending) && (i in s.pending ==> t.pending[i] == s.pending[i])
  }

  lemma ResentIsRefreshed(s: State, asked: set<Family>, families: set<Family>, requested: set<Family>, t: State)
    requires Valid(s) && Resent(s, requested, t)
    requires forall f :: f in requested <==> IsAsked(asked, families, f)
    ensures Refreshed(s, asked, families, t)
  {
    var keys := Resendable(s, requested);
    forall i
      ensures RefreshedAt(s, asked, families, t, i)
    {
      assert RequeuedAt(s, keys, t.pending, i);
      if k :| k in s.announced && k.index == i && IsAsked(asked, families, k.family) {
        assert k in keys;
        var l := KeyOf(t.pending[i]);
        assert l in keys && l.index == i;
      } else {
        assert forall k | k in keys :: k.index != i;
      }
    }
  }

  /** No two cached routes of the families share an index. */
  ghost predicate Distinct(s: State, families: set<Family>) {
    forall k, l | k in s.announced && l in s.announced && k.family in families && l.family in families
                  && k.index == l.index :: k == l
  }

  /** A peer that asks for the routes of some families is sent all of them, and nothing that changes its
      table; afterwards the cache is what it was. */
  lemma RefreshSendsRoutes(s: State, held: Peer, wanted: Peer, requested: set<Family>, t: State)
    requires s.cache && Valid(s) && Consistent(s, held, wanted) && Sent(s) == map[]
    requires Resent(s, requested, t) && Distinct(s, requested)
    ensures forall k | k in s.announced && k.family in requested ::
              Hits(Sent(t), k) && Sent(t)[k.index] == s.announced[k]
    ensures PeerAfter(held, Sent(t)) == held
    ensures Drained(t).announced == s.announced
  {
    forall k: Key
      ensures k in s.announced && k.family in requested ==> Hits(Sent(t), k) && Sent(t)[k.index] == s.announced[k]
      ensures Hits(Sent(t), k) ==> k in s.announced && k.family in requested
    {
      RefreshedKey(s, held, wanted, requested, t, k);
    }
    hide Resent, Distinct, Consistent, Sent;
    var sent := Sent(t);
    forall k: Key
      ensures SameAt(PeerAfter(held, sent), held, k)
      ensures SameAt(Drained(t).announced, s.announced, k)
    {
      OverlayAt(held, sent, PathOf, k);
      OverlayAt(t.announced, sent, (c: Change) => c, k);
      CachedIsHeld(s, held, wanted, k);
      ResentCache(s, requested, t, k);
    }
    SameEverywhere(PeerAfter(held, sent), held);
    SameEverywhere(Drained(t).announced, s.announced);
  }

  lemma CachedIsHeld(s: State, held: Peer, wanted: Peer, k: Key)
    requires s.cache && Valid(s) && Consistent(s, held, wanted)
    ensures k in s.announced <==> k in held
    ensures k in s.announced ==> PathOf(s.announced[k]) == held[k] && s.announced[k].action.Announce?
  {
  }

  lemma ResentCache(s: State, requested: set<Family>, t: State, k: Key)
    requires Resent(s, requested, t)
    ensures t.cache == s.cache
    ensures k in t.announced <==> k in s.announced && k.family !in requested
    ensures k in t.announced ==> t.announced[k] == s.announced[k]
  {
  }

  lemma RefreshedKey(s: State, held: Peer, wanted: Peer, requested: set<Family>, t: State, k: Key)
    requires s.cache && Valid(s) && Consistent(s, held, wanted) && Sent(s) == map[]
    requires Resent(s, requested, t) && Distinct(s, requested)
    ensures k in s.announced && k.family in requested ==> Hits(Sent(t), k) && Sent(t)[k.index] == s.announced[k]
    ensures Hits(Sent(t), k) ==> k in s.announced && k.family in requested
  {
    var keys := Resendable(s, requested);
    assert RequeuedAt(s, keys, t.pending, k.index);
    if k in keys {
      var l := KeyOf(t.pending[k.index]);
      assert l in keys && l.index == k.index && l == k;
    } else if Hits(t.pending, k) {
      assert !(exists l :: l in keys && l.index == k.index);
      assert k.index !in Sent(s);
      assert Duplicate(s, s.pending[k.index]) && k in s.announced && k.family !in requested;
      assert Duplicate(t, t.pending[k.index]);
    }
  }

  /** What a peer that holds none of its routes any more gets back. */
  lemma RefreshRebuilds(s: State, held: Peer, wanted: Peer, requested: set<Family>, t: State)
    requires s.cache && Valid(s) && Consistent(s, held, wanted) && Sent(s) == map[]
    requires Resent(s, requested, t) && Distinct(s, requested)
    ensures PeerAfter(map[], Sent(t)) == map k | k in held && k.family in requested :: held[k]
  {
    var asked: Peer := map k | k in held && k.family in requested :: held[k];
    forall k: Key
      ensures SameAt(PeerAfter(map[], Sent(t)), asked, k)
    {
      OverlayAt(map[], Sent(t), PathOf, k);
      RefreshedKey(s, held, wanted, requested, t, k);
      CachedIsHeld(s, held, wanted, k);
    }
    SameEverywhere(PeerAfter(map[], Sent(t)), asked);
  }

  /** No two of the peer's routes that were asked for share an index. */
  ghost predicate DistinctAsked(held: Peer, asked: set<Family>, families: set<Family>) {
    forall k, l | k in held && l in held && IsAsked(asked, families, k.family) && IsAsked(asked, families, l.family)
                  && k.index == l.index :: k == l
  }

  /** The same in terms of what was asked for. */
  lemma RefreshOutcome(s: State, held: Peer, wanted: Peer, asked: set<Family>, families: set<Family>,
                       requested: set<Family>, t: State)
    requires s.cache && Valid(s) && Consistent(s, held, wanted) && Sent(s) == map[]
    requires Resent(s, requested, t) && DistinctAsked(held, asked, families)
    requires forall f :: f in requested <==> IsAsked(asked, families, f)
    ensures PeerAfter(held, Sent(t)) == held && Drained(t).announced == s.announced
    ensures PeerAfter(map[], Sent(t)) == map k | k in held && IsAsked(asked, families, k.family) :: held[k]
  {
    hide Valid, Resent, Sent, PeerAfter, Drained;
    assert Distinct(s, requested) by {
      assert s.announced.Keys == held.Keys;
    }
    hide Consistent, Distinct, IsAsked;
    RefreshSendsRoutes(s, held, wanted, requested, t);
    RefreshRebuilds(s, held, wanted, requested, t);
  }

  /** A change inserted between the request and the drain has its effect, unless it withdraws a route that
      has been queued again: the announcement is cancelled as if it had never been sent, and the peer
      keeps the route. */
  lemma ChangeDuringRefreshIff(s: State, held: Peer, wanted: Peer, requested: set<Family>, t: State, c: Change)
    requires s.cache && Valid(s) && Consistent(s, held, wanted) && Sent(s) == map[]
    requires Resent(s, requested, t) && Distinct(s, requested) && !Hijacks(t, c)
    ensures PeerAfter(held, Sent(Insert(t, c))) == Want(held, c) <==>
            && !(c.action.Withdraw? && KeyOf(c) in s.announced && c.family in requested)
            && !(Duplicate(t, c) && t.announced[KeyOf(c)].nextHop != c.nextHop)
  {
    var u := Insert(t, c);
    var after, want := PeerAfter(held, Sent(u)), Want(held, c);
    RefreshSendsRoutes(s, held, wanted, requested, t);
    InsertedPending(t, c);
    hide Insert, Resent, Distinct, Consistent, Valid, Hijacks, Duplicate, PeerAfter, Sent;
    forall k: Key | k != KeyOf(c)
      ensures SameAt(after, want, k)
    {
      OtherKeyStays(held, t, c, k);
    }
    ChangedKey(s, held, wanted, requested, t, c);
    if SameAt(after, want, KeyOf(c)) {
      SameEverywhere(after, want);
    }
  }

  lemma OtherKeyStays(held: Peer, t: State, c: Change, k: Key)
    requires Valid(t) && !Hijacks(t, c) && k != KeyOf(c) && PeerAfter(held, Sent(t)) == held
    ensures SameAt(PeerAfter(held, Sent(Insert(t, c))), Want(held, c), k)
  {
    var u := Insert(t, c);
    SentAfterInsert(t, u, c, k);
    hide Insert, Sent, Valid, Hijacks;
    OverlayAt(held, Sent(u), PathOf, k);
    OverlayAt(held, Sent(t), PathOf, k);
  }

  /** An insertion that takes no other family's place leaves what is sent for other keys. */
  lemma SentAfterInsert(t: State, u: State, c: Change, k: Key)
    requires Valid(t) && u == Insert(t, c) && !Hijacks(t, c) && k != KeyOf(c)
    ensures Hits(Sent(u), k) <==> Hits(Sent(t), k)
    ensures Hits(Sent(u), k) ==> Sent(u)[k.index] == Sent(t)[k.index]
  {
    InsertedPending(t, c);
    assert u.announced == t.announced && u.cache == t.cache;
    hide Insert;
    assert c.index in t.pending ==> KeyOf(t.pending[c.index]) == KeyOf(c);
    assert k.index == c.index ==> !Hits(u.pending, k) && !Hits(t.pending, k);
  }

  /** The outcome of the changed key itself. */
  lemma ChangedKey(s: State, held: Peer, wanted: Peer, requested: set<Family>, t: State, c: Change)
    requires s.cache && Valid(s) && Consistent(s, held, wanted) && Sent(s) == map[]
    requires Resent(s, requested, t) && Distinct(s, requested) && !Hijacks(t, c)
    ensures SameAt(PeerAfter(held, Sent(Insert(t, c))), Want(held, c), KeyOf(c)) <==>
            && !(c.action.Withdraw? && KeyOf(c) in s.announced && c.family in requested)
            && !(Duplicate(t, c) && t.announced[KeyOf(c)].nextHop != c.nextHop)
  {
    var u, k := Insert(t, c), KeyOf(c);
    RefreshedKey(s, held, wanted, requested, t, k);
    CachedIsHeld(s, held, wanted, k);
    ResentCache(s, requested, t, k);
    SentOwnKey(t, c);
    OverlayAt(held, Sent(u), PathOf, k);
    assert Hits(Sent(t), k) ==> Hits(t.pending, k) && Sent(t)[k.index] == t.pending[k.index];
    hide Insert, Resent, Distinct, Consistent, PeerAfter, Valid, Sent;
  }

  /** Whether the inserted change itself is sent. */
  lemma SentOwnKey(t: State, c: Change)
    requires Valid(t) && !Hijacks(t, c)
    ensures var u, k := Insert(t, c), KeyOf(c);
            && (Hits(Sent(u), k) <==> !(Cancels(t, c) && k !in t.announced) && !Duplicate(t, c))
            && (Hits(Sent(u), k) ==> Sent(u)[k.index] == c)
            && (Cancels(t, c) ==> Hits(t.pending, k))
  {
    InsertedPending(t, c);
    assert Insert(t, c).announced == t.announced;
    assert c.index in t.pending ==> KeyOf(t.pending[c.index]) == KeyOf(c);
    assert c.family !in t.families ==> KeyOf(c) !in t.announced;
    hide Insert;
  }

  /** A route that is withdrawn while a request for its family is being answered stays at the peer. */
  lemma WithdrawnDuringRefresh(c: Change, d: Change, requested: set<Family>, t: State)
    requires c.action.Announce? && d.action.Withdraw? && KeyOf(c) == KeyOf(d) && c.family in requested
    requires Resent(Next(Next(Fresh(true), Insertion(c)), Drain).store, requested, t)
    ensures var peer := Next(Next(Fresh(true), Insertion(c)), Drain).peer;
            && peer == map[KeyOf(c) := PathOf(c)] && Want(peer, d) == map[]
            && PeerAfter(peer, Sent(Insert(t, d))) != map[]
  {
    FirstDrain(c);
    var v := Next(Fresh(true), Insertion(c));
    NextValid(Fresh(true), Insertion(c));
    NextValid(v, Drain);
    var s, peer := Drained(v.store), PeerAfter(v.peer, Sent(v.store));
    assert s.pending == map[] && Sent(s) == map[];
    assert RequeuedAt(s, Resendable(s, requested), t.pending, c.index);
    assert Consistent(s, peer, peer) && Distinct(s, requested) && KeyOf(c) in s.announced;
    hide Drained, PeerAfter, Resent, Insert, Consistent, Distinct;
    assert Want(peer, d) == map[];
    ChangeDuringRefreshIff(s, peer, peer, requested, t, d);
  }

  // ----- runs with reconnections -----

  /** Every wanted route has been announced by an allowed change. */
  lemma WantedIsAllowed(w: World, allowed: Change -> bool, k: Key) returns (c: Change)
    requires Follows(w, allowed) && k in w.wanted
    ensures allowed(c) && c.action.Announce? && KeyOf(c) == k
  {
    c := if Hits(w.store.pending, k) then w.store.pending[k.index] else w.store.announced[k];
  }

  lemma WantedIsRebuildable(w: World, allowed: Change -> bool, families: set<Family>)
    requires Unshared(allowed) && Follows(w, allowed)
    ensures Rebuildable(w.wanted, families) <==> forall k | k in w.wanted :: k.family in families
  {
    hide Follows;
    forall k, l | k in w.wanted && l in w.wanted && k.index == l.index
      ensures k == l
    {
      var c := WantedIsAllowed(w, allowed, k);
      var d := WantedIsAllowed(w, allowed, l);
    }
  }

  /** After a run without shared indexes, a reconnection gives the peer everything wanted if and only if
      all its families are configured and no next hop is held back. */
  lemma ReconnectAfterUnsharedRun(steps: seq<Step>, allowed: Change -> bool, families: set<Family>, t: State)
    requires Unshared(allowed) && UsesOnly(steps, allowed)
    requires Resent(Drained(Run(Fresh(true), steps).store), families, t)
    ensures var r, wanted := Run(Fresh(true), steps), LastWriter(map[], steps);
            PeerAfter(map[], Sent(t)) == wanted <==>
            (forall k | k in wanted :: k.family in families) && NextHopsCached(r.store)
  {
    RunFollows(Fresh(true), steps, allowed);
    var r := Run(Fresh(true), steps);
    WantedIsRebuildable(r, allowed, families);
    hide Run, Drained, PeerAfter, Resent, Rebuildable, NextHopsCached, Consistent, HoldsOnly;
    ReconnectAt(r.store, r.peer, r.wanted, families, t);
  }

  datatype Event = Local(step: Step) | Reconnection

  /** What an event makes of a world. On a reconnection the peer has forgotten everything, the queue is
      drained into the cache, and the announced routes of the configured families are queued again, in
      any order. */
  ghost predicate Moves(families: set<Family>, v: World, e: Event, w: World)
    requires Valid(v.store)
  {
    match e
    case Local(step) => w == Next(v, step)
    case Reconnection => w.peer == map[] && w.wanted == v.wanted && Resent(Drained(v.store), families, w.store)
  }

  ghost predicate History(families: set<Family>, worlds: seq<World>, events: seq<Event>) {
    && |worlds| == |events| + 1 && worlds[0] == Fresh(true)
    && forall i | 0 <= i < |events| :: Valid(worlds[i].store) && Moves(families, worlds[i], events[i], worlds[i + 1])
  }

  function StepsOf(events: seq<Event>): seq<Step> {
    if events == [] then []
    else
      var last := events[|events| - 1];
      StepsOf(events[..|events| - 1]) + (if last.Local? then [last.step] else [])
  }

  /** Every event of the history is a reconnection, a drain or an allowed change. */
  ghost predicate EventsUseOnly(events: seq<Event>, allowed: Change -> bool) {
    forall j | 0 <= j < |events| && events[j].Local? && events[j].step.Insertion? :: allowed(events[j].step.change)
  }

  /** A drain at the end leaves the peer with the last-writer-wins table of all changes. */
  ghost predicate Settles(worlds: seq<World>, events: seq<Event>)
    requires worlds != []
  {
    var last := worlds[|worlds| - 1];
    PeerAfter(last.peer, Sent(last.store)) == LastWriter(map[], StepsOf(events))
  }

  /** Every announced route belongs to a configured family. */
  ghost predicate Configured(allowed: Change -> bool, families: set<Family>) {
    forall c: Change | allowed(c) && c.action.Announce? :: c.family in families
  }

  lemma ReconnectionFollows(families: set<Family>, v: World, w: World, allowed: Change -> bool)
    requires Determined(allowed) && Unshared(allowed) && Configured(allowed, families)
    requires Follows(v, allowed) && Moves(families, v, Reconnection, w)
    ensures Follows(w, allowed)
  {
    var d, held := Drained(v.store), PeerAfter(v.peer, Sent(v.store));
    FollowedConverges(v, allowed);
    WantedIsRebuildable(v, allowed, families);
    forall k | k in v.wanted
      ensures k.family in families
    {
      var c := WantedIsAllowed(v, allowed, k);
    }
    DrainHoldsOnly(v.store, allowed);
    hide Determined, Unshared, Configured, Drained, Rebuildable;
    ResetDrains(v.store, v.peer, v.wanted);
    ResentHoldsOnly(d, families, w.store, allowed);
    ResentConsistent(d, held, v.wanted, families, w.store);
  }

  lemma ResentHoldsOnly(s: State, families: set<Family>, t: State, allowed: Change -> bool)
    requires HoldsOnly(s, allowed) && Resent(s, families, t)
    ensures HoldsOnly(t, allowed)
  {
    forall i | i in t.pending
      ensures allowed(t.pending[i])
    {
      assert RequeuedAt(s, Resendable(s, families), t.pending, i);
    }
  }

  lemma {:induction false} HistoryFollows(families: set<Family>, worlds: seq<World>, events: seq<Event>,
                                          allowed: Change -> bool, n: nat)
    requires Determined(allowed) && Unshared(allowed) && Configured(allowed, families)
    requires History(families, worlds, events) && EventsUseOnly(events, allowed) && n <= |events|
    ensures Follows(worlds[n], allowed)
  {
    hide Determined, Unshared, Configured;
    if n > 0 {
      hide Follows;
      HistoryFollows(families, worlds, events, allowed, n - 1);
      match events[n - 1]
      case Local(step) => NextFollows(worlds[n - 1], step, allowed);
      case Reconnection => ReconnectionFollows(families, worlds[n - 1], worlds[n], allowed);
    }
  }

  lemma {:induction false} HistoryWanted(families: set<Family>, worlds: seq<World>, events: seq<Event>, n: nat)
    requires History(families, worlds, events) && n <= |events|
    ensures worlds[n].wanted == LastWriter(map[], StepsOf(events[..n]))
  {
    if n > 0 {
      HistoryWanted(families, worlds, events, n - 1);
      var before := StepsOf(events[..n - 1]);
      assert events[..n][..n - 1] == events[..n - 1];
      assert events[n - 1].Reconnection? ==> StepsOf(events[..n]) == before + [] == before;
      if events[n - 1].Local? {
        LastWriterAppend(map[], before, events[n - 1].step);
      }
    }
  }

  lemma HistoryAppend(families: set<Family>, worlds: seq<World>, events: seq<Event>, x: Step)
    requires History(families, worlds, events) && Valid(worlds[|events|].store)
    ensures History(families, worlds + [Next(worlds[|events|], x)], events + [Local(x)])
  {
    var ws, es := worlds + [Next(worlds[|events|], x)], events + [Local(x)];
    LocalMoves(families, worlds[|events|], x);
    hide Valid, Next, Moves;
    forall i | 0 <= i < |es|
      ensures Valid(ws[i].store) && Moves(families, ws[i], es[i], ws[i + 1])
    {
      assert ws[i] == worlds[i];
      if i < |events| {
        assert ws[i + 1] == worlds[i + 1] && es[i] == events[i];
      }
    }
  }

  lemma LocalMoves(families: set<Family>, w: World, x: Step)
    requires Valid(w.store)
    ensures Moves(families, w, Local(x), Next(w, x))
  {
  }

  /** The history of a run, which has no reconnections. */
  function Plain(steps: seq<Step>): (events: seq<Event>)
    ensures |events| == |steps|
  {
    seq(|steps|, j requires 0 <= j < |steps| => Local(steps[j]))
  }

  lemma {:induction false} StepsOfPlain(steps: seq<Step>)
    ensures StepsOf(Plain(steps)) == steps
  {
    if steps != [] {
      StepsOfPlain(steps[..|steps| - 1]);
      assert Plain(steps)[..|steps| - 1] == Plain(steps[..|steps| - 1]);
    }
  }

  lemma {:induction false} RunIsHistory(families: set<Family>, steps: seq<Step>) returns (worlds: seq<World>)
    ensures |worlds| == |steps| + 1 && History(families, worlds, Plain(steps))
    ensures worlds[|steps|] == Run(Fresh(true), steps)
  {
    if steps == [] {
      worlds := [Fresh(true)];
    } else {
      hide History, Run, Next, Valid, Plain;
      var init, x := steps[..|steps| - 1], steps[|steps| - 1];
      worlds := RunIsHistory(families, init);
      assert init + [x] == steps;
      RunAppend(Fresh(true), init, x);
      HistoryAppend(families, worlds, Plain(init), x);
      PlainNext(init, x);
      worlds := worlds + [Next(worlds[|init|], x)];
    }
  }

  lemma PlainNext(init: seq<Step>, x: Step)
    ensures Plain(init + [x]) == Plain(init) + [Local(x)]
  {
  }

  /** Every history of allowed changes, drains and reconnections converges if and only if for each route
      the attribute index determines the next hop, no announced route shares its index with a change of
      another family, and the families of all announced routes are configured. */
  lemma HistoriesConvergeIff(allowed: Change -> bool, families: set<Family>)
    ensures (forall worlds, events | History(families, worlds, events) && EventsUseOnly(events, allowed) ::
               Settles(worlds, events))
            <==> Determined(allowed) && Unshared(allowed) && Configured(allowed, families)
  {
    hide Determined, Unshared, Configured, Settles, UsesOnly, EventsUseOnly, Converges, Moves;
    if !Determined(allowed) || !Unshared(allowed) {
      RunsConvergeIff(allowed);
      var steps :| UsesOnly(steps, allowed) && !Converges(steps);
      var worlds, events := UnsettledRun(families, steps, allowed);
    } else if !Configured(allowed, families) {
      var worlds, events := UnconfiguredHistory(allowed, families);
    } else {
      forall worlds, events | History(families, worlds, events) && EventsUseOnly(events, allowed)
        ensures Settles(worlds, events)
      {
        AllowedHistorySettles(families, worlds, events, allowed);
      }
    }
  }

  lemma AllowedHistorySettles(families: set<Family>, worlds: seq<World>, events: seq<Event>, allowed: Change -> bool)
    requires Determined(allowed) && Unshared(allowed) && Configured(allowed, families)
    requires History(families, worlds, events) && EventsUseOnly(events, allowed)
    ensures Settles(worlds, events)
  {
    hide Determined, Unshared, Configured, Follows;
    HistoryFollows(families, worlds, events, allowed, |events|);
    HistoryWanted(families, worlds, events, |events|);
    assert events[..|events|] == events;
    FollowedConverges(worlds[|events|], allowed);
  }

  lemma UnsettledRun(families: set<Family>, steps: seq<Step>, allowed: Change -> bool)
    returns (worlds: seq<World>, events: seq<Event>)
    requires UsesOnly(steps, allowed) && !Converges(steps)
    ensures History(families, worlds, events) && EventsUseOnly(events, allowed) && !Settles(worlds, events)
  {
    worlds := RunIsHistory(families, steps);
    events := Plain(steps);
    StepsOfPlain(steps);
  }

  lemma UnconfiguredHistory(allowed: Change -> bool, families: set<Family>)
    returns (worlds: seq<World>, events: seq<Event>)
    requires !Configured(allowed, families)
    ensures History(families, worlds, events) && EventsUseOnly(events, allowed) && !Settles(worlds, events)
  {
    var c: Change :| allowed(c) && c.action.Announce? && c.family !in families;
    worlds, events := LostOnReconnection(c, families);
  }

  /** A route of a family that is not configured is gone after a reconnection. */
  lemma LostOnReconnection(c: Change, families: set<Family>) returns (worlds: seq<World>, events: seq<Event>)
    requires c.action.Announce? && c.family !in families
    ensures events == [Local(Insertion(c)), Reconnection]
    ensures History(families, worlds, events) && !Settles(worlds, events)
  {
    events := [Local(Insertion(c)), Reconnection];
    var v := Next(Fresh(true), Insertion(c));
    NextValid(Fresh(true), Insertion(c));
    DrainedValid(v.store);
    FirstDrain(c);
    var d := Drained(v.store);
    var t := d.(families := d.families + families);
    assert Resendable(d, families) == {};
    assert Without(d.announced, families) == d.announced;
    worlds := [Fresh(true), v, World(t, map[], v.wanted)];
    assert events[..1] == [Local(Insertion(c))] && [Local(Insertion(c))][..0] == [] && events[..2] == events;
    HistoryWanted(families, worlds, events, 2);
    assert Sent(t) == map[];
    OverlayNothing(map[], PathOf);
    assert KeyOf(c) in v.wanted;
  }

  // ----- draining in portions -----

  lemma OverlayTwice<V>(table: map<Key, V>, a: Pending, b: Pending, value: Change -> V)
    requires a.Keys !! b.Keys
    ensures Overlay(Overlay(table, a, value), b, value) == Overlay(table, a + b, value)
  {
    var once := Overlay(table, a, value);
    forall k: Key
      ensures SameAt(Overlay(once, b, value), Overlay(table, a + b, value), k)
    {
      OverlayAt(table, a, value, k);
      OverlayAt(once, b, value, k);
      OverlayAt(table, a + b, value, k);
      assert Hits(a + b, k) <==> Hits(a, k) || Hits(b, k) || (k.index in a && k.index in b);
    }
    SameEverywhere(Overlay(once, b, value), Overlay(table, a + b, value));
  }

  lemma PeerAfterTwice(peer: Peer, a: Pending, b: Pending)
    requires a.Keys !! b.Keys
    ensures PeerAfter(PeerAfter(peer, a), b) == PeerAfter(peer, a + b)
  {
    OverlayTwice(peer, a, b, PathOf);
  }

  lemma PrunedTwice(sorted: Sorted, a: set<Index>, b: set<Index>)
    ensures Pruned(Pruned(sorted, a), b) == Pruned(sorted, a + b)
  {
    forall x | x in sorted
      ensures sorted[x] - a - b == sorted[x] - (a + b)
    {
    }
  }

  lemma FamiliesOfBoth(a: Pending, b: Pending)
    requires a.Keys !! b.Keys
    ensures AnnouncedFamilies(a) + AnnouncedFamilies(b) == AnnouncedFamilies(a + b)
  {
    forall f | f in AnnouncedFamilies(a) + AnnouncedFamilies(b)
      ensures f in AnnouncedFamilies(a + b)
    {
      if i :| i in a && a[i].action.Announce? && a[i].family == f {
        assert (a + b)[i] == a[i];
      } else {
        var i :| i in b && b[i].action.Announce? && b[i].family == f;
        assert (a + b)[i] == b[i];
      }
    }
  }

  lemma DrainTwice(s: State, a: Pending, b: Pending)
    requires a.Keys !! b.Keys
    ensures DrainSome(DrainSome(s, a), b) == DrainSome(s, a + b)
  {
    OverlayTwice(s.announced, a, b, (c: Change) => c);
    PrunedTwice(s.sorted, a.Keys, b.Keys);
    FamiliesOfBoth(a, b);
    assert (a + b).Keys == a.Keys + b.Keys;
    assert s.pending - a.Keys - b.Keys == s.pending - (a.Keys + b.Keys);
  }

  lemma OverlayNothing<V>(table: map<Key, V>, value: Change -> V)
    ensures Overlay(table, map[], value) == table
  {
    forall k: Key {
      OverlayAt(table, map[], value, k);
    }
    SameEverywhere(Overlay(table, map[], value), table);
  }

  lemma DrainNothing(s: State)
    ensures DrainSome(s, map[]) == s
  {
    var none: Pending := map[];
    assert none.Keys == {};
    OverlayNothing(s.announced, (c: Change) => c);
    forall x | x in s.sorted
      ensures s.sorted[x] - {} == s.sorted[x]
    {
    }
    assert Pruned(s.sorted, {}) == s.sorted;
    assert AnnouncedFamilies(map[]) == {};
    assert s.pending - {} == s.pending;
  }

  /** The changes that a drain sends from one inner map. */
  function Group(s: State, a: Attributes): Pending
    requires a in s.sorted
  {
    map i | i in s.sorted[a] && !Duplicate(s, s.sorted[a][i]) :: s.sorted[a][i]
  }

  /** The changes sent from the inner maps in `done`. */
  function SentFrom(s: State, done: set<Attributes>): Pending {
    map i | i in s.pending && s.pending[i].attributes in done && !Duplicate(s, s.pending[i]) :: s.pending[i]
  }

  lemma GroupSent(s: State, done: set<Attributes>, a: Attributes)
    requires Valid(s) && a in s.sorted && a !in done
    ensures Group(s, a).Keys !! SentFrom(s, done).Keys
    ensures SentFrom(s, done) + Group(s, a) == SentFrom(s, done + {a})
  {
    assert forall i | i in s.sorted[a] :: i in s.pending && s.pending[i] == s.sorted[a][i];
  }

  /** Draining other inner maps leaves this one, and the cached routes under its indexes. */
  lemma OthersDrained(s: State, done: set<Attributes>, a: Attributes)
    requires Valid(s) && a in s.sorted && a !in done
    ensures var t := DrainSome(s, SentFrom(s, done));
            && a in t.sorted && t.sorted[a] == s.sorted[a]
            && forall i | i in s.sorted[a] :: s.sorted[a][i].index == i && i !in SentFrom(s, done)
  {
  }

  /** What one inner map contributes does not depend on the ones drained before it. */
  lemma SameGroup(s: State, done: set<Attributes>, a: Attributes)
    requires Valid(s) && a in s.sorted && a !in done
    ensures var t := DrainSome(s, SentFrom(s, done)); a in t.sorted && Group(t, a) == Group(s, a)
  {
    OthersDrained(s, done, a);
    hide Valid, SentFrom, Pruned, Overlay;
    var sent := SentFrom(s, done);
    var t := DrainSome(s, sent);
    forall i | i in s.sorted[a]
      ensures Duplicate(t, s.sorted[a][i]) <==> Duplicate(s, s.sorted[a][i])
    {
      OverlayAt(s.announced, sent, (c: Change) => c, KeyOf(s.sorted[a][i]));
    }
  }

  lemma GroupAfter(s: State, done: set<Attributes>, a: Attributes)
    requires Valid(s) && a in s.sorted && a !in done
    ensures var t := DrainSome(s, SentFrom(s, done));
            && a in t.sorted && Group(t, a) == Group(s, a)
            && DrainSome(t, Group(t, a)) == DrainSome(s, SentFrom(s, done + {a}))
  {
    var sent := SentFrom(s, done);
    var t := DrainSome(s, sent);
    SameGroup(s, done, a);
    hide Duplicate, Overlay;
    GroupSent(s, done, a);
    DrainTwice(s, sent, Group(s, a));
  }
}
