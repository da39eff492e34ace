/** Recency lists: what the open-file cache stands for. */
module RecencyList {
  import opened Bytes

  datatype Stat = Stat(regular: bool, size: int, mtime: int, inode: nat)

  /** What opening a path gives: nothing, or a descriptor whose fstat may fail. */
  datatype Outcome = Refused | Opened(stat: Option<Stat>)

  datatype Item = Item(path: seq<byte>, size: int, mtime: int, inode: nat)

  function ItemOf(path: seq<byte>, st: Stat): Item {
    Item(path, st.size, st.mtime, st.inode)
  }

  /** The file is still the one that was cached. */
  predicate Same(o: Outcome, item: Item) {
    o.Opened? && o.stat.Some? && o.stat.value.regular && ItemOf(item.path, o.stat.value) == item
  }

  /** That is: it opens, and is a regular file of the same size, time and inode. */
  lemma SameIff(o: Outcome, item: Item)
    ensures Same(o, item) <==> o == Opened(Some(Stat(true, item.size, item.mtime, item.inode)))
  {
  }

  function Without<T>(s: seq<T>, p: nat): seq<T>
    requires p < |s|
  {
    s[..p] + s[p + 1..]
  }

  /** Where a path stands in the list, least recently used first. */
  function Place(items: seq<Item>, path: seq<byte>): (r: Option<nat>)
    ensures r.Some? ==> r.value < |items| && items[r.value].path == path
    ensures r.None? ==> forall k :: 0 <= k < |items| ==> items[k].path != path
  {
    if items == [] then None
    else if items[|items| - 1].path == path then Some(|items| - 1)
    else Place(items[..|items| - 1], path)
  }

  /** A hit moves to the end, a stale item goes. */
  function Looked(items: seq<Item>, path: seq<byte>, o: Outcome): seq<Item> {
    match Place(items, path)
    case None => items
    case Some(p) => Without(items, p) + (if Same(o, items[p]) then [items[p]] else [])
  }

  predicate Hit(items: seq<Item>, path: seq<byte>, o: Outcome) {
    var p := Place(items, path);
    p.Some? && Same(o, items[p.value])
  }

  /** A new item goes to the end; a full list loses its least recently used item first, even if dup then fails. */
  function Stored(items: seq<Item>, max: nat, item: Item, dupOk: bool): seq<Item>
    requires max > 0
  {
    (if |items| >= max then items[1..] else items) + (if dupOk then [item] else [])
  }

  lemma StoredList(items: seq<Item>, rest: seq<Item>, max: nat, item: Item, dupOk: bool)
    requires max > 0
    ensures rest == (if |items| >= max then items[1..] else items) ==>
              Stored(items, max, item, dupOk) == if dupOk then rest + [item] else rest
  {
  }

  predicate Storable(o: Outcome) {
    o.Opened? && o.stat.Some? && o.stat.value.regular
  }

  /** One open of a path that may be cached. */
  function Opening(items: seq<Item>, max: nat, path: seq<byte>, first: Outcome, second: Outcome, dupOk: bool): seq<Item>
    requires max > 0
  {
    var looked := Looked(items, path, first);
    if Hit(items, path, first) || !Storable(second) then looked
    else Stored(looked, max, ItemOf(path, second.stat.value), dupOk)
  }

  /** An open after which the entry count is right: only a failed dup makes it wrong, and only when it cost an entry. */
  predicate KeepsCount(items: seq<Item>, max: nat, path: seq<byte>, first: Outcome, second: Outcome, dupOk: bool) {
    dupOk || Hit(items, path, first) || !Storable(second) || |Looked(items, path, first)| < max
  }

  lemma OpeningLength(items: seq<Item>, max: nat, path: seq<byte>, first: Outcome, second: Outcome)
    requires max > 0
    ensures |Opening(items, max, path, first, second, false)| ==
            |Looked(items, path, first)| - if KeepsCount(items, max, path, first, second, false) then 0 else 1
  {
  }

  // ---------------------------------------------------------------- whole runs over files that do not change

  type Path = seq<byte>

  function IndexOf(u: seq<Path>, p: Path): (r: Option<nat>)
    ensures r.Some? ==> r.value < |u| && u[r.value] == p
    ensures r.None? ==> p !in u
  {
    if u == [] then None
    else if u[|u| - 1] == p then Some(|u| - 1)
    else IndexOf(u[..|u| - 1], p)
  }

  /** The paths used, the latest use last. */
  function Used(u: seq<Path>, p: Path): seq<Path> {
    (match IndexOf(u, p) case None => u case Some(q) => Without(u, q)) + [p]
  }

  function Uses(paths: seq<Path>, n: nat): seq<Path>
    requires n <= |paths|
  {
    if n == 0 then [] else Used(Uses(paths, n - 1), paths[n - 1])
  }

  function Recent<T>(u: seq<T>, max: nat): seq<T> {
    if |u| <= max then u else u[|u| - max..]
  }

  predicate Readable(files: Path -> Outcome, p: Path) {
    Storable(files(p))
  }

  function ItemAt(files: Path -> Outcome, p: Path): Item {
    if Storable(files(p)) then ItemOf(p, files(p).stat.value) else Item(p, 0, 0, 0)
  }

  function ItemsFor(files: Path -> Outcome, u: seq<Path>): (r: seq<Item>)
    ensures |r| == |u| && forall k :: 0 <= k < |u| ==> r[k] == ItemAt(files, u[k])
  {
    seq(|u|, k requires 0 <= k < |u| => ItemAt(files, u[k]))
  }

  ghost predicate Distinct(u: seq<Path>) {
    forall a, b :: 0 <= a < b < |u| ==> u[a] != u[b]
  }

  lemma UsedDistinct(u: seq<Path>, p: Path)
    requires Distinct(u)
    ensures Distinct(Used(u, p))
  {
    var q := IndexOf(u, p);
    if q.Some? {
      var w := Without(u, q.value);
      assert forall a :: 0 <= a < |w| ==> w[a] == u[if a < q.value then a else a + 1];
    }
  }

  lemma RecentHit(u: seq<Path>, max: nat, p: Path, j: nat)
    requires Distinct(u) && j < |Recent(u, max)| && Recent(u, max)[j] == p
    ensures Recent(Used(u, p), max) == Without(Recent(u, max), j) + [p]
  {
    var q := |u| - |Recent(u, max)| + j;
    RecentAt(u, max, j);
    IndexIs(u, p, q);
    RecentMoved(u, Used(u, p), max, p, j);
  }

  lemma RecentAt<T>(u: seq<T>, max: nat, j: nat)
    requires j < |Recent(u, max)|
    ensures |Recent(u, max)| <= |u| && u[|u| - |Recent(u, max)| + j] == Recent(u, max)[j]
  {
  }

  lemma IndexIs(u: seq<Path>, p: Path, q: nat)
    requires Distinct(u) && q < |u| && u[q] == p
    ensures IndexOf(u, p) == Some(q) && Used(u, p) == Without(u, q) + [p]
  {
  }

  /** Moving an element of the tail to the end changes the tail only. */
  lemma RecentMoved<T>(u: seq<T>, w: seq<T>, max: nat, p: T, j: nat)
    requires j < |Recent(u, max)| && w == Without(u, |u| - |Recent(u, max)| + j) + [p]
    ensures Recent(w, max) == Without(Recent(u, max), j) + [p]
  {
    assert |w| == |u|;
  }

  /** Moving an element from before the tail, or adding one, shifts the tail by one. */
  lemma RecentShifted<T>(u: seq<T>, v: seq<T>, max: nat, p: T, q: nat)
    requires max > 0 && if q < |u| - |Recent(u, max)| then v == Without(u, q) else v == u
    ensures var t := Recent(u, max); Recent(v + [p], max) == (if |t| >= max then t[1..] else t) + [p]
  {
    if q < |u| - |Recent(u, max)| {
      assert v[q..] == u[q + 1..];
      assert v == u[..q] + v[q..];
    }
  }

  lemma RecentMiss(u: seq<Path>, max: nat, p: Path)
    requires max > 0 && p !in Recent(u, max)
    ensures var t := Recent(u, max); Recent(Used(u, p), max) == (if |t| >= max then t[1..] else t) + [p]
  {
    var t, q := Recent(u, max), IndexOf(u, p);
    assert forall k :: |u| - |t| <= k < |u| ==> u[k] == t[k - (|u| - |t|)];
    RecentShifted(u, if q.Some? then Without(u, q.value) else u, max, p, if q.Some? then q.value else |u|);
  }

  lemma OpeningHit(files: Path -> Outcome, t: seq<Path>, max: nat, p: Path, j: nat)
    requires Distinct(t) && max > 0 && Readable(files, p) && j < |t| && t[j] == p
    ensures Opening(ItemsFor(files, t), max, p, files(p), files(p), true) == ItemsFor(files, Without(t, j) + [p])
  {
    var items := ItemsFor(files, t);
    assert items[j].path == p;
    assert Place(items, p) == Some(j);
    assert Same(files(p), items[j]);
    assert Without(items, j) + [items[j]] == ItemsFor(files, Without(t, j) + [p]);
  }

  lemma OpeningMiss(files: Path -> Outcome, t: seq<Path>, max: nat, p: Path)
    requires max > 0 && Readable(files, p) && p !in t
    ensures Opening(ItemsFor(files, t), max, p, files(p), files(p), true) ==
            ItemsFor(files, (if |t| >= max then t[1..] else t) + [p])
  {
    var items, rest := ItemsFor(files, t), if |t| >= max then t[1..] else t;
    assert Place(items, p) == None;
    assert (if |items| >= max then items[1..] else items) + [ItemAt(files, p)] == ItemsFor(files, rest + [p]);
  }

  /** One open keeps the list the most recent paths, as many as fit. */
  lemma OpeningKeepsRecent(files: Path -> Outcome, u: seq<Path>, max: nat, p: Path)
    requires Distinct(u) && max > 0 && Readable(files, p)
    ensures Opening(ItemsFor(files, Recent(u, max)), max, p, files(p), files(p), true) ==
            ItemsFor(files, Recent(Used(u, p), max))
  {
    var t := Recent(u, max);
    if p in t {
      var j: nat :| j < |t| && t[j] == p;
      RecentHit(u, max, p, j);
      OpeningHit(files, t, max, p, j);
    } else {
      RecentMiss(u, max, p);
      OpeningMiss(files, t, max, p);
    }
  }

  lemma {:induction false} UsesDistinct(paths: seq<Path>, n: nat)
    requires n <= |paths|
    ensures Distinct(Uses(paths, n))
  {
    if n > 0 {
      var before := Uses(paths, n - 1);
      UsesDistinct(paths, n - 1);
      UsedDistinct(before, paths[n - 1]);
      assert Uses(paths, n) == Used(before, paths[n - 1]);
    }
  }
}

/** The cache of open descriptors of one site (src/server.c). */
module OpenFileCache {
  import opened Bytes
  import opened RecencyList

  datatype Entry = Entry(valid: bool, fd: int, path: seq<byte>, size: int, mtime: int, inode: nat, lastUsed: nat)

  const EMPTY: Entry := Entry(false, -1, [], 0, 0, 0, 0)

  const PATH_SIZE: nat := 512

  function Key(e: Entry): Item {
    Item(e.path, e.size, e.mtime, e.inode)
  }

  // ---------------------------------------------------------------- the table as a value

  /** `order` lists the valid slots, least recently used first, and the ticks agree with it. */
  ghost predicate Coherent(es: seq<Entry>, order: seq<nat>, tick: nat) {
    && (forall a :: 0 <= a < |order| ==> order[a] < |es| && es[order[a]].valid && es[order[a]].lastUsed <= tick)
    && (forall a, b :: 0 <= a < b < |order| ==> es[order[a]].lastUsed < es[order[b]].lastUsed)
    && (forall i: nat :: i < |es| && es[i].valid ==> i in order)
  }

  /** The paths that storing may have cut: only they can be doubled or blocked. */
  predicate Cut(path: seq<byte>, tainted: bool) {
    tainted && |path| == PATH_SIZE - 1
  }

  ghost predicate Keyed(es: seq<Entry>, blocked: seq<byte> -> bool, tainted: bool) {
    && (forall i, j :: 0 <= i < j < |es| && es[i].valid && es[j].valid && es[i].path == es[j].path ==> Cut(es[i].path, tainted))
    && (forall i :: 0 <= i < |es| && es[i].valid && blocked(es[i].path) ==> Cut(es[i].path, tainted))
    && (forall i :: 0 <= i < |es| && es[i].valid ==> |es[i].path| < PATH_SIZE)
  }

  /** No two valid entries have the same path. */
  ghost predicate DistinctPaths(es: seq<Entry>) {
    forall i, j :: 0 <= i < j < |es| && es[i].valid && es[j].valid ==> es[i].path != es[j].path
  }

  ghost predicate NotIn(es: seq<Entry>, path: seq<byte>) {
    forall i :: 0 <= i < |es| && es[i].valid ==> es[i].path != path
  }

  /** No valid entry has this path, unless it is one that storing may have cut. */
  ghost predicate Unlisted(es: seq<Entry>, path: seq<byte>, tainted: bool) {
    forall i :: 0 <= i < |es| && es[i].valid && es[i].path == path ==> Cut(path, tainted)
  }

  lemma DropCoherent(es: seq<Entry>, order: seq<nat>, tick: nat, p: nat)
    requires Coherent(es, order, tick) && p < |order|
    ensures Coherent(es[order[p] := EMPTY], Without(order, p), tick)
  {
    WithoutAt(order, p);
    var es', rest := es[order[p] := EMPTY], Without(order, p);
    forall i: nat | i < |es'| && es'[i].valid ensures i in rest {
      assert i in order && i != order[p];
    }
    assert forall a :: 0 <= a < |rest| ==> rest[a] != order[p] && rest[a] in order;
  }

  lemma WithoutAt<T>(s: seq<T>, p: nat)
    requires p < |s|
    ensures |Without(s, p)| == |s| - 1
    ensures forall a {:trigger Without(s, p)[a]} :: 0 <= a < |s| - 1 ==> Without(s, p)[a] == s[if a < p then a else a + 1]
    ensures forall x :: x in s && x != s[p] ==> x in Without(s, p)
  {
    forall x | x in s && x != s[p] ensures x in Without(s, p) {
      var a :| 0 <= a < |s| && s[a] == x;
      assert Without(s, p)[if a < p then a else a - 1] == x;
    }
  }

  lemma TouchCoherent(es: seq<Entry>, order: seq<nat>, tick: nat, p: nat)
    requires Coherent(es, order, tick) && p < |order|
    ensures var k := order[p];
            Coherent(es[k := es[k].(lastUsed := tick + 1)], Without(order, p) + [k], tick + 1)
  {
    var k := order[p];
    DropCoherent(es, order, tick, p);
    PutCoherent(es[k := EMPTY], Without(order, p), tick, k, es[k].(lastUsed := tick + 1));
    assert es[k := EMPTY][k := es[k].(lastUsed := tick + 1)] == es[k := es[k].(lastUsed := tick + 1)];
  }

  lemma PutCoherent(es: seq<Entry>, order: seq<nat>, tick: nat, k: nat, e: Entry)
    requires Coherent(es, order, tick) && k < |es| && !es[k].valid
    requires e.valid && e.lastUsed == tick + 1
    ensures Coherent(es[k := e], order + [k], tick + 1)
  {
    var order' := order + [k];
    assert order'[|order|] == k;
    forall i: nat | i < |es| && es[k := e][i].valid ensures i in order' {
    }
  }

  // ---------------------------------------------------------------- descriptors

  function Fds(es: seq<Entry>): set<int> {
    set i | 0 <= i < |es| && es[i].valid :: es[i].fd
  }

  /** Every cached descriptor is open and belongs to one entry. */
  ghost predicate Held(es: seq<Entry>, open: set<int>) {
    && (forall i :: 0 <= i < |es| && es[i].valid ==> es[i].fd in open && es[i].fd >= 0)
    && (forall i, j :: 0 <= i < j < |es| && es[i].valid && es[j].valid ==> es[i].fd != es[j].fd)
  }

  lemma DropHeld(es: seq<Entry>, open: set<int>, k: nat)
    requires Held(es, open) && k < |es| && es[k].valid
    ensures Held(es[k := EMPTY], open - {es[k].fd}) && Fds(es[k := EMPTY]) == Fds(es) - {es[k].fd}
  {
    var es' := es[k := EMPTY];
    forall x | x in Fds(es) - {es[k].fd} ensures x in Fds(es') {
      var i :| 0 <= i < |es| && es[i].valid && es[i].fd == x;
      assert es'[i].valid;
    }
  }

  lemma PutHeld(es: seq<Entry>, open: set<int>, k: nat, e: Entry)
    requires Held(es, open) && k < |es| && !es[k].valid && e.valid && e.fd >= 0 && e.fd !in open
    ensures Held(es[k := e], open + {e.fd}) && Fds(es[k := e]) == Fds(es) + {e.fd}
  {
    var es' := es[k := e];
    assert es'[k].valid;
    forall x | x in Fds(es) ensures x in Fds(es') {
      var i :| 0 <= i < |es| && es[i].valid && es[i].fd == x;
      assert es'[i].valid;
    }
  }

  /** The descriptors of the process: open and dup give the lowest one that is free. */
  class Kernel {
    var open: set<int>

    method Allocate() returns (fd: int)
      modifies this
      ensures fd >= 0 && fd !in old(open) && open == old(open) + {fd}
    {
      fd := 0;
      ghost var below: set<int> := {};
      while fd in open
        invariant fd >= 0 && below <= open && |below| == fd
        invariant forall x :: x in below ==> x < fd
        decreases |open - below|
      {
        assert open - (below + {fd}) == (open - below) - {fd};
        below := below + {fd};
        fd := fd + 1;
      }
      open := open + {fd};
    }

    method Close(fd: int)
      requires fd in open
      modifies this
      ensures open == old(open) - {fd}
    {
      open := open - {fd};
    }
  }

  // ---------------------------------------------------------------- the cache as a value

  /** The table, its recency order, the clock and the open descriptors of the process. */
  datatype View = View(es: seq<Entry>, order: seq<nat>, tick: nat, blocked: seq<byte> -> bool, tainted: bool, open: set<int>)

  ghost predicate Sound(v: View) {
    Coherent(v.es, v.order, v.tick) && Keyed(v.es, v.blocked, v.tainted) && Held(v.es, v.open)
  }

  ghost function EmptyView(): (v: View)
    ensures Sound(v)
  {
    View([], [], 0, _ => false, false, {})
  }

  type SoundView = v: View | Sound(v) ghost witness EmptyView()

  /** Slot order[p] is emptied and its descriptor closed. */
  ghost function Dropped(v: SoundView, p: nat): SoundView
    requires p < |v.order|
  {
    var k := v.order[p];
    DropCoherent(v.es, v.order, v.tick, p);
    DropHeld(v.es, v.open, k);
    v.(es := v.es[k := EMPTY], order := Without(v.order, p), open := v.open - {v.es[k].fd})
  }

  /** Slot order[p] becomes the most recently used one. */
  ghost function Touched(v: SoundView, p: nat): SoundView
    requires p < |v.order|
  {
    var k := v.order[p];
    TouchCoherent(v.es, v.order, v.tick, p);
    var es' := v.es[k := v.es[k].(lastUsed := v.tick + 1)];
    SameKeys(v.es, es');
    v.(es := es', order := Without(v.order, p) + [k], tick := v.tick + 1)
  }

  lemma SameKeys(es: seq<Entry>, es': seq<Entry>)
    requires |es'| == |es|
    requires forall i :: 0 <= i < |es| ==> es'[i].valid == es[i].valid && es'[i].fd == es[i].fd && es'[i].path == es[i].path
    ensures Fds(es') == Fds(es)
    ensures forall open :: Held(es, open) ==> Held(es', open)
    ensures forall b, t :: Keyed(es, b, t) ==> Keyed(es', b, t)
  {
    forall x | x in Fds(es) ensures x in Fds(es') {
      var i :| 0 <= i < |es| && es[i].valid && es[i].fd == x;
      assert es'[i].valid;
    }
  }

  /** What may be put into a free slot. */
  ghost predicate Fits(v: View, k: nat, e: Entry, long: bool) {
    && k < |v.es| && !v.es[k].valid && e.valid && |e.path| < PATH_SIZE && e.lastUsed == v.tick + 1 && e.fd >= 0 && e.fd !in v.open
    && Unlisted(v.es, e.path, v.tainted || long) && (v.blocked(e.path) ==> Cut(e.path, v.tainted || long))
  }

  /** A free slot is filled, with a descriptor opened for it. */
  ghost function Filled(v: SoundView, k: nat, e: Entry, long: bool): SoundView
    requires Fits(v, k, e, long)
  {
    PutCoherent(v.es, v.order, v.tick, k, e);
    PutHeld(v.es, v.open, k, e);
    v.(es := v.es[k := e], order := v.order + [k], tick := v.tick + 1, tainted := v.tainted || long, open := v.open + {e.fd})
  }

  /** A descriptor was opened for the caller. */
  ghost function WithOpen(v: SoundView, fd: int): SoundView {
    v.(open := v.open + {fd})
  }

  /** The open descriptors that are not the cache's. */
  ghost function Others(v: View): set<int> {
    v.open - Fds(v.es)
  }

  lemma DroppedOthers(v: SoundView, p: nat)
    requires p < |v.order|
    ensures Others(Dropped(v, p)) == Others(v)
  {
    DropHeld(v.es, v.open, v.order[p]);
  }

  lemma TouchedOthers(v: SoundView, p: nat)
    requires p < |v.order|
    ensures Others(Touched(v, p)) == Others(v)
  {
    SameKeys(v.es, Touched(v, p).es);
  }

  lemma FilledOthers(v: SoundView, k: nat, e: Entry, long: bool)
    requires Fits(v, k, e, long)
    ensures Others(Filled(v, k, e, long)) == Others(v)
  {
    PutHeld(v.es, v.open, k, e);
  }

  lemma OpenedOthers(v: SoundView, fd: int)
    requires fd !in v.open
    ensures Others(WithOpen(v, fd)) == Others(v) + {fd} && fd !in Others(v)
  {
  }

  // ---------------------------------------------------------------- the recency list

  ghost function Items(v: SoundView): (r: seq<Item>)
    ensures |r| == |v.order|
  {
    seq(|v.order|, a requires 0 <= a < |v.order| => Key(v.es[v.order[a]]))
  }

  lemma DroppedItems(v: SoundView, p: nat)
    requires p < |v.order|
    ensures Items(Dropped(v, p)) == Without(Items(v), p)
  {
    WithoutAt(v.order, p);
    WithoutAt(Items(v), p);
    OrderDistinct(v);
  }

  lemma TouchedItems(v: SoundView, p: nat)
    requires p < |v.order|
    ensures Items(Touched(v, p)) == Without(Items(v), p) + [Items(v)[p]]
  {
    WithoutAt(v.order, p);
    OrderDistinct(v);
    MovedToEnd(Items(v), p, Items(Touched(v, p)));
  }

  lemma MovedToEnd<T>(s: seq<T>, p: nat, moved: seq<T>)
    requires p < |s| == |moved| && moved[|s| - 1] == s[p]
    requires forall a {:trigger moved[a]} :: 0 <= a < |s| - 1 ==> moved[a] == s[if a < p then a else a + 1]
    ensures moved == Without(s, p) + [s[p]]
  {
  }

  lemma FilledItems(v: SoundView, k: nat, e: Entry, long: bool)
    requires Fits(v, k, e, long)
    ensures Items(Filled(v, k, e, long)) == Items(v) + [Key(e)]
  {
  }

  lemma OrderDistinct(v: SoundView)
    ensures forall a, b :: 0 <= a < b < |v.order| ==> v.order[a] != v.order[b]
  {
  }

  /** A listed path stands at one place. */
  lemma PlaceOf(v: SoundView, path: seq<byte>, p: nat)
    requires p < |v.order| && v.es[v.order[p]].path == path && !Cut(path, v.tainted)
    ensures Place(Items(v), path) == Some(p)
  {
    OrderDistinct(v);
    var q := Place(Items(v), path);
    assert Items(v)[p].path == path;
    assert q.Some? && v.es[v.order[q.value]].path == path;
  }

  lemma NoPlace(v: SoundView, path: seq<byte>)
    requires Unlisted(v.es, path, v.tainted) && !Cut(path, v.tainted)
    ensures Place(Items(v), path) == None
  {
    assert forall a :: 0 <= a < |v.order| ==> Items(v)[a] == Key(v.es[v.order[a]]);
  }

  lemma OrderFits(v: SoundView)
    ensures |v.order| <= |v.es|
    ensures |v.order| == |v.es| <==> forall k :: 0 <= k < |v.es| ==> v.es[k].valid
  {
    OrderDistinct(v);
    ListsAll(v.order, |v.es|);
    forall k: nat | k < |v.es| ensures k in v.order <==> v.es[k].valid {
    }
    assert forall k :: 0 <= k < |v.es| ==> (var n: nat := k; n in v.order <==> v.es[k].valid);
  }

  /** A list of different numbers below n is at most n long, and has all of them when it is that long. */
  lemma ListsAll(order: seq<nat>, n: nat)
    requires forall a, b :: 0 <= a < b < |order| ==> order[a] != order[b]
    requires forall a :: 0 <= a < |order| ==> order[a] < n
    ensures |order| <= n && (|order| == n <==> forall k: nat :: k < n ==> k in order)
  {
    var all, used := UpTo(n), set k: nat | k in order;
    SetOf(order);
    Subset(used, all);
    if forall k: nat :: k < n ==> k in order {
      Subset(all, used);
    }
    if |order| == n {
      forall k: nat | k < n ensures k in order {
        assert k in all;
      }
    }
  }

  lemma Subset(a: set<nat>, b: set<nat>)
    requires a <= b
    ensures |a| <= |b| && (|a| == |b| ==> a == b)
  {
    assert b == a + (b - a);
  }

  function UpTo(n: nat): (r: set<nat>)
    ensures |r| == n && forall k: nat :: k in r <==> k < n
  {
    if n == 0 then {} else UpTo(n - 1) + {n - 1}
  }

  lemma {:induction false} SetOf(s: seq<nat>)
    requires forall a, b :: 0 <= a < b < |s| ==> s[a] != s[b]
    ensures |set k: nat | k in s| == |s|
  {
    if s != [] {
      var t := s[..|s| - 1];
      SetOf(t);
      assert s == t + [s[|s| - 1]];
      assert (set k: nat | k in s) == (set k: nat | k in t) + {s[|s| - 1]};
    }
  }

  // ---------------------------------------------------------------- which slot storing takes

  /** The first slot that is free or has the path; when there is none, the one with the oldest tick. */
  ghost predicate IsSlot(es: seq<Entry>, path: seq<byte>, k: nat) {
    && k < |es|
    && if Stops(es[k], path) then forall j :: 0 <= j < k ==> !Stops(es[j], path)
       else forall j :: 0 <= j < |es| ==> !Stops(es[j], path) && es[k].lastUsed <= es[j].lastUsed
  }

  predicate Stops(e: Entry, path: seq<byte>) {
    !e.valid || e.path == path
  }

  /** Storing finds a slot that is not in use. */
  ghost predicate TakesFree(es: seq<Entry>, path: seq<byte>) {
    exists k: nat :: IsSlot(es, path, k) && !es[k].valid
  }

  lemma SlotDecides(es: seq<Entry>, path: seq<byte>, k: nat)
    requires IsSlot(es, path, k)
    ensures TakesFree(es, path) <==> !es[k].valid
  {
  }

  /** Storing alone would double an entry that stands behind a free slot: only the look-up before it prevents that. */
  lemma StoringAloneDoubles(e: Entry, st: Stat, fd: int, tick: nat, blocked: seq<byte> -> bool)
    requires e.valid && |e.path| < PATH_SIZE - 1
    ensures var es := [EMPTY, e];
            IsSlot(es, e.path, 0) && !Keyed(es[0 := NewEntry(e.path, st, fd, tick)], blocked, true)
  {
    var es := [EMPTY, e][0 := NewEntry(e.path, st, fd, tick)];
    assert es[0].valid && es[1].valid && es[0].path == es[1].path;
  }

  /** A full cache gives up its least recently used entry; otherwise a free slot is taken. */
  lemma VictimIsOldest(v: SoundView, path: seq<byte>, k: nat)
    requires IsSlot(v.es, path, k) && Unlisted(v.es, path, v.tainted) && !Cut(path, v.tainted)
    ensures |v.order| < |v.es| <==> !v.es[k].valid
    ensures v.es[k].valid ==> |v.order| > 0 && v.order[0] == k && forall p :: 0 <= p < |v.order| && v.order[p] == k ==> p == 0
  {
    OrderFits(v);
    if v.es[k].valid {
      var p := PositionOf(v.order, k);
      assert v.es[v.order[0]].lastUsed <= v.es[k].lastUsed;
      OrderDistinct(v);
    }
  }

  ghost function PositionOf(order: seq<nat>, k: nat): (p: nat)
    requires k in order
    ensures p < |order| && order[p] == k
  {
    var p: nat :| p < |order| && order[p] == k;
    p
  }

  /** Room is made in slot k. */
  ghost function Evicted(v: SoundView, k: nat): (r: SoundView)
    requires k < |v.es|
    ensures |r.es| == |v.es| && !r.es[k].valid && r.tick == v.tick && r.open <= v.open
  {
    if v.es[k].valid then Dropped(v, PositionOf(v.order, k)) else v
  }

  function NewEntry(path: seq<byte>, st: Stat, fd: int, tick: nat): Entry {
    Entry(true, fd, Truncate(path, PATH_SIZE), st.size, st.mtime, st.inode, tick)
  }

  lemma NewEntryFits(v: SoundView, path: seq<byte>, st: Stat, k: nat, fd: int)
    requires k < |v.es| && fd >= 0 && fd !in Evicted(v, k).open
    requires Unlisted(v.es, path, v.tainted) && !v.blocked(path)
    ensures Fits(Evicted(v, k), k, NewEntry(path, st, fd, v.tick + 1), |path| >= PATH_SIZE)
  {
  }

  lemma EvictedOthers(v: SoundView, k: nat)
    requires k < |v.es|
    ensures Others(Evicted(v, k)) == Others(v)
  {
    if v.es[k].valid {
      DroppedOthers(v, PositionOf(v.order, k));
    }
  }

  lemma DroppedUnlisted(v: SoundView, path: seq<byte>, p: nat)
    requires p < |v.order| && v.es[v.order[p]].path == path
    ensures Unlisted(Dropped(v, p).es, path, v.tainted)
  {
  }

  class Cache {
    const enabled: bool
    const max: nat
    /** static_cache_path_blocked for the site. */
    const blocked: seq<byte> -> bool
    const entries: array<Entry>
    const kernel: Kernel
    var count: nat
    var tick: nat
    ghost var view: SoundView
    /** How far `count` is ahead of the number of valid entries. */
    ghost var drift: nat

    ghost predicate Mirrored()
      reads this, entries, kernel
    {
      && entries.Length == max
      && view == View(entries[..], view.order, tick, blocked, view.tainted, kernel.open)
    }

    ghost predicate Valid()
      reads this, entries, kernel
    {
      Mirrored() && count == |view.order| + drift && count <= max
    }

    predicate Cacheable(path: seq<byte>) {
      enabled && max > 0 && !blocked(path)
    }

    constructor (enabled: bool, max: nat, blocked: seq<byte> -> bool, kernel: Kernel)
      ensures Valid() && fresh(entries) && this.kernel == kernel && this.enabled == enabled && this.max == max && this.blocked == blocked
      ensures view.order == [] && drift == 0 && !view.tainted
    {
      this.enabled, this.max, this.blocked, this.kernel := enabled, max, blocked, kernel;
      entries := new Entry[max](_ => EMPTY);
      count, tick, drift := 0, 0, 0;
      view := View(seq(max, _ => EMPTY), [], 0, blocked, false, kernel.open);
      new;
      assert entries[..] == seq(max, _ => EMPTY);
    }

    /** static_open_cache_invalidate_entry */
    method Invalidate(k: nat)
      requires k < entries.Length && entries[k].fd in kernel.open && entries[k].fd >= 0
      modifies entries, kernel
      ensures entries[..] == old(entries[..])[k := EMPTY]
      ensures kernel.open == old(kernel.open) - {old(entries[k].fd)}
    {
      if entries[k].fd >= 0 {
        kernel.Close(entries[k].fd);
      }
      entries[k] := EMPTY;
    }

    /** The entry goes, and the count with it. */
    method Forget(k: nat)
      requires k < entries.Length && entries[k].fd in kernel.open && entries[k].fd >= 0
      modifies this`count, entries, kernel
      ensures entries[..] == old(entries[..])[k := EMPTY]
      ensures kernel.open == old(kernel.open) - {old(entries[k].fd)}
      ensures count == if old(count) > 0 then old(count) - 1 else 0
    {
      Invalidate(k);
      if count > 0 {
        count := count - 1;
      }
    }

    /** The rest of static_open_cache_lookup, once an entry has the path. */
    method Recheck(k: nat, now: Outcome) returns (r: Option<(int, Stat)>)
      requires k < entries.Length && entries[k].fd in kernel.open && entries[k].fd >= 0
      modifies this`tick, this`count, entries, kernel
      ensures r.Some? <==> Same(now, Key(old(entries[k])))
      ensures r.Some? ==>
                && r.value.1 == now.stat.value && r.value.0 >= 0 && r.value.0 !in old(kernel.open)
                && kernel.open == old(kernel.open) + {r.value.0} && tick == old(tick) + 1 && count == old(count)
                && entries[..] == old(entries[..])[k := old(entries[k]).(lastUsed := tick)]
      ensures r.None? ==>
                && kernel.open == old(kernel.open) - {old(entries[k].fd)} && tick == old(tick)
                && count == (if old(count) > 0 then old(count) - 1 else 0)
                && entries[..] == old(entries[..])[k := EMPTY]
    {
      if now.Refused? {
        Forget(k);
        return None;
      }
      var fd := kernel.Allocate();
      if now.stat.None? || !now.stat.value.regular || now.stat.value.size != entries[k].size ||
         now.stat.value.mtime != entries[k].mtime || now.stat.value.inode != entries[k].inode
      {
        kernel.Close(fd);
        Forget(k);
        return None;
      }
      tick := tick + 1;
      entries[k] := entries[k].(lastUsed := tick);
      r := Some((fd, now.stat.value));
    }

    /** static_open_cache_lookup */
    method Lookup(path: seq<byte>, now: Outcome) returns (r: Option<(int, Stat)>)
      requires Valid()
      modifies this`tick, this`count, this`view, entries, kernel
      ensures Valid() && drift == old(drift) && LookedUp(old(view), view, Cacheable(path), path, now, r)
      ensures LookedApart(old(view), view, Cacheable(path), path, r)
    {
      if !enabled || max == 0 || blocked(path) {
        NothingDone(view, path, now);
        return None;
      }
      for i := 0 to max
        invariant Valid() && view == old(view) && drift == old(drift)
        invariant forall j :: 0 <= j < i ==> !(entries[j].valid && entries[j].path == path)
      {
        if entries[i].valid && entries[i].fd >= 0 && entries[i].path == path {
          r := Use(i, path, now);
          return;
        }
      }
      NotFound(view, path, now);
      r := None;
    }

    /**
     * open_static_path: `first` and `second` are what the file system answers to the look-up's open and to the
     * one that follows a miss.
     */
    method Open(path: seq<byte>, first: Outcome, second: Outcome, dupOk: bool) returns (r: Option<(int, Stat)>)
      requires Valid()
      modifies this`tick, this`count, this`view, this`drift, entries, kernel
      ensures Valid() && OpenedAs(old(view), view, max, Cacheable(path), path, first, second, dupOk, r)
      ensures StaysApart(old(view), view, path)
      ensures dupOk ==> drift <= old(drift)
      ensures !dupOk && Cacheable(path) && !old(view).tainted && |path| < PATH_SIZE ==>
                drift == old(drift) + (|Looked(old(Items(view)), path, first)| - |view.order|)
      ensures !dupOk ==> old(drift) <= drift <= old(drift) + 1
      ensures Cacheable(path) && !old(view).tainted && |path| < PATH_SIZE && old(drift) == 0 ==>
                (count == |view.order| <==> KeepsCount(old(Items(view)), max, path, first, second, dupOk))
    {
      ghost var v := view;
      if max > 0 {
        OpeningLength(Items(v), max, path, first, second);
      }
      r := Lookup(path, first);
      if r.None? {
        r := OpenFresh(v, path, first, second, dupOk);
      } else {
        OpenedWithoutStore(v, view, max, Cacheable(path), path, first, second, dupOk, r);
      }
    }

    /** The rest of open_static_path, once the look-up found nothing. */
    method OpenFresh(ghost v: SoundView, path: seq<byte>, first: Outcome, second: Outcome, dupOk: bool)
      returns (r: Option<(int, Stat)>)
      requires Valid() && LookedUp(v, view, Cacheable(path), path, first, None)
      requires LookedApart(v, view, Cacheable(path), path, None)
      modifies this`tick, this`count, this`view, this`drift, entries, kernel
      ensures Valid() && OpenedAs(v, view, max, Cacheable(path), path, first, second, dupOk, r)
      ensures StaysApart(v, view, path)
      ensures dupOk ==> drift <= old(drift)
      ensures !dupOk ==> drift == old(drift) + (|old(view.order)| - |view.order|)
      ensures !dupOk ==> old(drift) <= drift <= old(drift) + 1
    {
      ghost var w := view;
      var answered := TryOpen(second);
      if answered.None? {
        OpenedWithoutStore(v, view, max, Cacheable(path), path, first, second, dupOk, None);
        return None;
      }
      var fd := answered.value;
      StoreOpened(v, w, path, fd, first, second, dupOk);
      r := Some((fd, second.stat.value));
    }

    /** Opening the file, and closing it again when fstat fails. */
    method TryOpen(now: Outcome) returns (fd: Option<int>)
      requires Valid()
      modifies this`view, kernel
      ensures Valid() && (fd.Some? <==> Fresh(now).Some?)
      ensures fd.None? ==> view == old(view)
      ensures fd.Some? ==> fd.value >= 0 && fd.value !in old(view).open && view == WithOpen(old(view), fd.value)
    {
      if now.Refused? {
        return None;
      }
      var got := kernel.Allocate();
      if now.stat.None? {
        kernel.Close(got);
        return None;
      }
      view := WithOpen(view, got);
      fd := Some(got);
    }

    /** The file is open and its fstat is known. */
    method StoreOpened(ghost v: SoundView, ghost w: SoundView, path: seq<byte>, fd: int, first: Outcome, second: Outcome, dupOk: bool)
      requires second.Opened? && second.stat.Some? && fd !in w.open && Valid() && view == WithOpen(w, fd)
      requires LookedUp(v, w, Cacheable(path), path, first, None) && LookedApart(v, w, Cacheable(path), path, None)
      modifies this`tick, this`count, this`view, this`drift, entries, kernel
      ensures Valid() && StaysApart(v, view, path)
      ensures OpenedAs(v, view, max, Cacheable(path), path, first, second, dupOk, Some((fd, second.stat.value)))
      ensures dupOk ==> drift <= old(drift)
      ensures !dupOk ==> drift == old(drift) + (|old(view.order)| - |view.order|) && old(drift) <= drift <= old(drift) + 1
    {
      Store(path, second.stat.value, dupOk);
      HandedWithStore(v, w, fd, view, max, Cacheable(path), path, first, second, dupOk);
      ListedWithStore(v, w, fd, view, max, Cacheable(path), path, first, second, dupOk);
    }

    /** The slot to store a path in. */
    method FindSlot(path: seq<byte>) returns (slot: nat)
      requires Mirrored() && max > 0
      ensures IsSlot(entries[..], path, slot)
    {
      var oldest: Option<nat> := None;
      slot := 0;
      for i := 0 to max
        invariant slot < max && (oldest.None? <==> i == 0)
        invariant forall j :: 0 <= j < i ==> !Stops(entries[j], path)
        invariant oldest.Some? ==> slot < i && entries[slot].lastUsed == oldest.value
        invariant oldest.Some? ==> forall j :: 0 <= j < i ==> entries[slot].lastUsed <= entries[j].lastUsed
      {
        if entries[i].valid && entries[i].path == path {
          return i;
        }
        if !entries[i].valid {
          return i;
        }
        if oldest.None? || entries[i].lastUsed < oldest.value {
          oldest := Some(entries[i].lastUsed);
          slot := i;
        }
      }
    }

    /** The rest of static_open_cache_store, once the slot is known. */
    method Fill(k: nat, path: seq<byte>, st: Stat, dupOk: bool) returns (cached: Option<int>)
      requires k < entries.Length && (entries[k].valid ==> entries[k].fd in kernel.open && entries[k].fd >= 0)
      modifies this`tick, this`count, entries, kernel
      ensures cached.Some? <==> dupOk
      ensures var open := old(kernel.open) - (if old(entries[k].valid) then {old(entries[k].fd)} else {});
              if dupOk then cached.value >= 0 && cached.value !in open && kernel.open == open + {cached.value}
              else kernel.open == open
      ensures tick == if dupOk then old(tick) + 1 else old(tick)
      ensures count == if dupOk && !old(entries[k].valid) && old(count) < max then old(count) + 1 else old(count)
      ensures entries[..] ==
              if dupOk then old(entries[..])[k := NewEntry(path, st, cached.value, tick)]
              else if old(entries[k].valid) then old(entries[..])[k := EMPTY]
              else old(entries[..])
    {
      var wasValid := entries[k].valid;
      if entries[k].valid {
        Invalidate(k);
      }
      if !dupOk {
        return None;
      }
      var fd := kernel.Allocate();
      tick := tick + 1;
      entries[k] := Entry(true, fd, Truncate(path, PATH_SIZE), st.size, st.mtime, st.inode, tick);
      if !wasValid && count < max {
        count := count + 1;
      }
      cached := Some(fd);
    }

    /** static_open_cache_store: called after a look-up that found nothing, so the path is not listed. */
    method Store(path: seq<byte>, st: Stat, dupOk: bool)
      requires Valid() && (Cacheable(path) ==> Unlisted(view.es, path, view.tainted))
      modifies this`tick, this`count, this`view, this`drift, entries, kernel
      ensures Valid() && StoredAs(old(view), view, max, Cacheable(path), path, st, dupOk)
      ensures (Cacheable(path) ==> NotIn(old(view).es, path)) ==> StaysApart(old(view), view, path)
      ensures dupOk ==> drift <= old(drift)
      ensures !dupOk ==> drift == old(drift) + (|old(view.order)| - |view.order|) && old(drift) <= drift <= old(drift) + 1
      ensures count == old(count) +
                if Cacheable(path) && st.regular && dupOk && TakesFree(old(view).es, path) && old(count) < max then 1 else 0
      ensures Cacheable(path) && st.regular && !Cut(path, old(view).tainted) ==>
                (TakesFree(old(view).es, path) <==> |old(view.order)| < max)
      ensures NoneBlocked(old(view)) ==>
                (NoneBlocked(view) <==> !(Cacheable(path) && st.regular && dupOk && CutToBlocked(path, blocked)))
    {
      if !enabled || max == 0 || !st.regular || blocked(path) {
        return;
      }
      var k := FindSlot(path);
      SlotDecides(view.es, path, k);
      if !Cut(path, view.tainted) {
        VictimIsOldest(view, path, k);
      }
      StoreIn(k, path, st, dupOk);
    }

    method StoreIn(k: nat, path: seq<byte>, st: Stat, dupOk: bool)
      requires Valid() && IsSlot(view.es, path, k)
      requires Unlisted(view.es, path, view.tainted) && !blocked(path) && st.regular
      modifies this`tick, this`count, this`view, this`drift, entries, kernel
      ensures Valid() && StoredAs(old(view), view, max, true, path, st, dupOk)
      ensures NotIn(old(view).es, path) ==> StaysApart(old(view), view, path)
      ensures dupOk ==> drift <= old(drift)
      ensures !dupOk ==> drift == old(drift) + (|old(view.order)| - |view.order|) && old(drift) <= drift <= old(drift) + 1
      ensures count == old(count) + if dupOk && !old(view).es[k].valid && old(count) < max then 1 else 0
      ensures NoneBlocked(old(view)) ==> (NoneBlocked(view) <==> !(dupOk && CutToBlocked(path, blocked)))
    {
      ghost var v := view;
      SlotHeld(v, k);
      var cached := StoreMirrored(k, path, st, dupOk);
      StoredLength(v, k, path, st, cached);
      drift := count - |view.order|;
      StoredMeans(v, k, path, st, cached);
      StoredDistinct(v, k, path, st, cached);
      if NoneBlocked(v) {
        StoredBlocked(v, k, path, st, cached);
      }
    }

    method StoreMirrored(k: nat, path: seq<byte>, st: Stat, dupOk: bool) returns (cached: Option<int>)
      requires Mirrored() && k < max && (view.es[k].valid ==> view.es[k].fd in view.open && view.es[k].fd >= 0)
      requires Unlisted(view.es, path, view.tainted) && !blocked(path)
      modifies this`tick, this`count, this`view, entries, kernel
      ensures Mirrored() && (cached.Some? <==> dupOk)
      ensures cached.Some? ==> cached.value >= 0 && cached.value !in Evicted(old(view), k).open
      ensures view == After(old(view), k, path, st, cached)
      ensures count == if dupOk && !old(view).es[k].valid && old(count) < max then old(count) + 1 else old(count)
    {
      ghost var v := view;
      cached := Fill(k, path, st, dupOk);
      StoredIs(v, k, path, st, cached);
      view := After(v, k, path, st, cached);
      assert view.es == entries[..] && view.tick == tick && view.open == kernel.open;
    }

    /** The entry of the path is in slot i. */
    method Use(i: nat, path: seq<byte>, now: Outcome) returns (r: Option<(int, Stat)>)
      requires Valid() && i < max && entries[i].valid && entries[i].path == path
      modifies this`tick, this`count, this`view, entries, kernel
      ensures Valid() && LookedUp(old(view), view, true, path, now, r)
      ensures LookedApart(old(view), view, true, path, r)
    {
      ghost var v, p := view, PositionOf(view.order, i);
      r := UseMirrored(i, p, now);
      RecheckedMeans(v, p, path, now, r);
      RecheckedApart(v, p, path, now, r);
    }

    method UseMirrored(i: nat, ghost p: nat, now: Outcome) returns (r: Option<(int, Stat)>)
      requires Valid() && p < |view.order| && view.order[p] == i
      modifies this`tick, this`count, this`view, entries, kernel
      ensures Valid() && (r.Some? <==> Same(now, Key(old(view).es[i])))
      ensures r.Some? ==> r.value.0 !in old(view).open && r.value.1 == now.stat.value
      ensures view == Rechecked(old(view), p, now, r)
    {
      r := Recheck(i, now);
      RecheckedIs(view, p, now, r);
      view := Rechecked(view, p, now, r);
    }
  }

  /** What storing in slot k leaves. */
  ghost function After(v: SoundView, k: nat, path: seq<byte>, st: Stat, cached: Option<int>): SoundView
    requires k < |v.es| && Unlisted(v.es, path, v.tainted) && !v.blocked(path)
    requires cached.Some? ==> cached.value >= 0 && cached.value !in Evicted(v, k).open
  {
    if cached.None? then Evicted(v, k)
    else
      NewEntryFits(v, path, st, k, cached.value);
      Filled(Evicted(v, k), k, NewEntry(path, st, cached.value, v.tick + 1), |path| >= PATH_SIZE)
  }

  lemma StoredIs(v: SoundView, k: nat, path: seq<byte>, st: Stat, cached: Option<int>)
    requires k < |v.es| && Unlisted(v.es, path, v.tainted) && !v.blocked(path)
    requires var open := v.open - (if v.es[k].valid then {v.es[k].fd} else {});
             cached.Some? ==> cached.value >= 0 && cached.value !in open
    ensures var open := v.open - (if v.es[k].valid then {v.es[k].fd} else {});
            var w := After(v, k, path, st, cached);
            && w.blocked == v.blocked
            && w.tick == (if cached.Some? then v.tick + 1 else v.tick)
            && w.open == (if cached.Some? then open + {cached.value} else open)
            && w.es == if cached.Some? then v.es[k := NewEntry(path, st, cached.value, v.tick + 1)]
                       else if v.es[k].valid then v.es[k := EMPTY] else v.es
  {
    if v.es[k].valid {
      assert Evicted(v, k) == Dropped(v, PositionOf(v.order, k));
    } else {
      assert Evicted(v, k) == v;
    }
    if cached.Some? {
      NewEntryFits(v, path, st, k, cached.value);
    }
  }

  lemma StoredLength(v: SoundView, k: nat, path: seq<byte>, st: Stat, cached: Option<int>)
    requires k < |v.es| && Unlisted(v.es, path, v.tainted) && !v.blocked(path)
    requires cached.Some? ==> cached.value >= 0 && cached.value !in Evicted(v, k).open
    ensures |After(v, k, path, st, cached).order| ==
            |v.order| - (if v.es[k].valid then 1 else 0) + (if cached.Some? then 1 else 0)
  {
    if v.es[k].valid {
      WithoutAt(v.order, PositionOf(v.order, k));
    }
  }

  lemma SlotHeld(v: SoundView, k: nat)
    requires k < |v.es|
    ensures if v.es[k].valid then v.es[k].fd in v.open && v.es[k].fd >= 0 && |v.order| > 0 else |v.order| < |v.es|
  {
    OrderFits(v);
  }

  /** All that storing does, seen from the recency list. */
  ghost predicate StoredAs(v: SoundView, v': SoundView, max: nat, cacheable: bool, path: seq<byte>, st: Stat, dupOk: bool) {
    && Others(v') == Others(v)
    && (!cacheable || !st.regular ==> v' == v)
    && (|path| < PATH_SIZE ==> v'.tainted == v.tainted)
    && (cacheable && st.regular && |path| < PATH_SIZE && !Cut(path, v.tainted) ==>
          max > 0 && Items(v') == Stored(Items(v), max, ItemOf(path, st), dupOk))
  }

  lemma StoredMeans(v: SoundView, k: nat, path: seq<byte>, st: Stat, cached: Option<int>)
    requires IsSlot(v.es, path, k) && Unlisted(v.es, path, v.tainted) && !v.blocked(path) && st.regular
    requires cached.Some? ==> cached.value >= 0 && cached.value !in Evicted(v, k).open
    ensures StoredAs(v, After(v, k, path, st, cached), |v.es|, true, path, st, cached.Some?)
  {
    StoredOthers(v, k, path, st, cached);
    StoredTaint(v, k, path, st, cached);
    if |path| < PATH_SIZE && !Cut(path, v.tainted) {
      StoredItems(v, k, path, st, cached);
    }
  }

  lemma StoredOthers(v: SoundView, k: nat, path: seq<byte>, st: Stat, cached: Option<int>)
    requires k < |v.es| && Unlisted(v.es, path, v.tainted) && !v.blocked(path)
    requires cached.Some? ==> cached.value >= 0 && cached.value !in Evicted(v, k).open
    ensures Others(After(v, k, path, st, cached)) == Others(v)
  {
    EvictedOthers(v, k);
    AfterIs(v, k, path, st, cached);
    if cached.Some? {
      FilledOthers(Evicted(v, k), k, NewEntry(path, st, cached.value, v.tick + 1), |path| >= PATH_SIZE);
    }
  }

  /** The two cases of what storing leaves. */
  lemma AfterIs(v: SoundView, k: nat, path: seq<byte>, st: Stat, cached: Option<int>)
    requires k < |v.es| && Unlisted(v.es, path, v.tainted) && !v.blocked(path)
    requires cached.Some? ==> cached.value >= 0 && cached.value !in Evicted(v, k).open
    ensures if cached.None? then After(v, k, path, st, cached) == Evicted(v, k)
            else FilledInto(v, Evicted(v, k), k, path, st, cached.value, After(v, k, path, st, cached))
  {
    if cached.Some? {
      NewEntryFits(v, path, st, k, cached.value);
    }
  }

  ghost predicate FilledInto(v: SoundView, w: SoundView, k: nat, path: seq<byte>, st: Stat, fd: int, x: SoundView) {
    var e, long := NewEntry(path, st, fd, v.tick + 1), |path| >= PATH_SIZE;
    Fits(w, k, e, long) && x == Filled(w, k, e, long)
  }

  lemma StoredDistinct(v: SoundView, k: nat, path: seq<byte>, st: Stat, cached: Option<int>)
    requires k < |v.es| && Unlisted(v.es, path, v.tainted) && !v.blocked(path)
    requires cached.Some? ==> cached.value >= 0 && cached.value !in Evicted(v, k).open
    ensures NotIn(v.es, path) ==> StaysApart(v, After(v, k, path, st, cached), path)
  {
    StoredIs(v, k, path, st, cached);
    if cached.Some? && DistinctPaths(v.es) && NotIn(v.es, path) {
      DistinctIff(v.es, k, path, st, cached.value, v.tick + 1);
    }
  }

  /** The exact condition for a new entry to keep the paths different: its path is not one that was cut to another entry's. */
  lemma DistinctIff(es: seq<Entry>, k: nat, path: seq<byte>, st: Stat, fd: int, tick: nat)
    requires k < |es| && DistinctPaths(es) && NotIn(es, path)
    ensures DistinctPaths(es[k := NewEntry(path, st, fd, tick)]) <==>
            |path| < PATH_SIZE || forall i :: 0 <= i < |es| && i != k && es[i].valid ==> es[i].path != path[..PATH_SIZE - 1]
  {
    var new_ := es[k := NewEntry(path, st, fd, tick)];
    if i: nat :| i < |es| && i != k && es[i].valid && es[i].path == new_[k].path {
      assert !DistinctPaths(new_) by {
        assert new_[i].valid && new_[k].valid && new_[i].path == new_[k].path;
      }
    }
  }

  /** So one path of 512 bytes, stored twice, stands twice in the table: no look-up ever finds it. */
  lemma LongPathDoubles(path: seq<byte>, st: Stat, fd: int, other: int)
    requires |path| >= PATH_SIZE
    ensures var empty := [EMPTY, EMPTY];
            var once := empty[0 := NewEntry(path, st, fd, 1)];
            var twice := once[1 := NewEntry(path, st, other, 2)];
            && IsSlot(empty, path, 0) && NotIn(once, path) && IsSlot(once, path, 1)
            && twice[0].valid && twice[1].valid && twice[0].path == twice[1].path
  {
  }

  ghost predicate NoneBlocked(v: View) {
    NoneOf(v.es, v.blocked)
  }

  ghost predicate NoneOf(es: seq<Entry>, blocked: seq<byte> -> bool) {
    forall i :: 0 <= i < |es| && es[i].valid ==> !blocked(es[i].path)
  }

  lemma PutBlocked(es: seq<Entry>, k: nat, e: Entry, blocked: seq<byte> -> bool)
    requires k < |es| && NoneOf(es, blocked)
    ensures NoneOf(es[k := e], blocked) <==> !(e.valid && blocked(e.path))
  {
    assert es[k := e][k] == e;
  }

  /** A path so long that it is cut to a blocked one. */
  predicate CutToBlocked(path: seq<byte>, blocked: seq<byte> -> bool) {
    |path| >= PATH_SIZE && blocked(path[..PATH_SIZE - 1])
  }

  /** And the exact condition for a blocked path to enter although blocked paths are refused. */
  lemma StoredBlocked(v: SoundView, k: nat, path: seq<byte>, st: Stat, cached: Option<int>)
    requires k < |v.es| && Unlisted(v.es, path, v.tainted) && !v.blocked(path) && NoneBlocked(v)
    requires cached.Some? ==> cached.value >= 0 && cached.value !in Evicted(v, k).open
    ensures NoneBlocked(After(v, k, path, st, cached)) <==> !(cached.Some? && CutToBlocked(path, v.blocked))
  {
    StoredIs(v, k, path, st, cached);
    PutBlocked(v.es, k, if cached.Some? then NewEntry(path, st, cached.value, v.tick + 1) else EMPTY, v.blocked);
  }

  lemma StoredTaint(v: SoundView, k: nat, path: seq<byte>, st: Stat, cached: Option<int>)
    requires k < |v.es| && Unlisted(v.es, path, v.tainted) && !v.blocked(path)
    requires cached.Some? ==> cached.value >= 0 && cached.value !in Evicted(v, k).open
    ensures |path| < PATH_SIZE ==> After(v, k, path, st, cached).tainted == v.tainted
  {
  }

  lemma StoredItems(v: SoundView, k: nat, path: seq<byte>, st: Stat, cached: Option<int>)
    requires IsSlot(v.es, path, k) && Unlisted(v.es, path, v.tainted) && !v.blocked(path)
    requires cached.Some? ==> cached.value >= 0 && cached.value !in Evicted(v, k).open
    requires |path| < PATH_SIZE && !Cut(path, v.tainted)
    ensures Items(After(v, k, path, st, cached)) == Stored(Items(v), |v.es|, ItemOf(path, st), cached.Some?)
  {
    var rest := Items(Evicted(v, k));
    StoredList(Items(v), rest, |v.es|, ItemOf(path, st), cached.Some?);
    EvictedItems(v, path, k);
    AfterIs(v, k, path, st, cached);
    if cached.Some? {
      FilledItems(Evicted(v, k), k, NewEntry(path, st, cached.value, v.tick + 1), false);
    }
  }

  lemma EvictedItems(v: SoundView, path: seq<byte>, k: nat)
    requires IsSlot(v.es, path, k) && Unlisted(v.es, path, v.tainted) && !Cut(path, v.tainted)
    ensures Items(Evicted(v, k)) == if |Items(v)| >= |v.es| then Items(v)[1..] else Items(v)
  {
    VictimIsOldest(v, path, k);
    OrderFits(v);
    if v.es[k].valid {
      DroppedItems(v, 0);
    }
  }

  /** The stat a fresh open would give. */
  function Fresh(o: Outcome): Option<Stat> {
    if o.Opened? then o.stat else None
  }

  function StatOf(r: Option<(int, Stat)>): Option<Stat> {
    if r.Some? then Some(r.value.1) else None
  }

  /** An open gives what a fresh open would, and the caller alone owns the descriptor. */
  ghost predicate Handed(v: SoundView, v': SoundView, first: Outcome, second: Outcome, r: Option<(int, Stat)>) {
    && Others(v') == Others(v) + (if r.Some? then {r.value.0} else {})
    && (r.Some? ==> r.value.0 !in Others(v))
    && (StatOf(r) == Fresh(second) || (r.Some? && StatOf(r) == Fresh(first)))
    && (first == second ==> StatOf(r) == Fresh(first))
  }

  /** What an open does to the recency list. */
  ghost predicate Listed(v: SoundView, v': SoundView, max: nat, cacheable: bool, path: seq<byte>,
                         first: Outcome, second: Outcome, dupOk: bool)
  {
    && (!cacheable ==> v'.es == v.es && v'.order == v.order)
    && (!v.tainted && |path| < PATH_SIZE ==> !v'.tainted)
    && (cacheable && !v.tainted && |path| < PATH_SIZE && max > 0 ==>
          Items(v') == RecencyList.Opening(Items(v), max, path, first, second, dupOk))
  }

  /** All that an open does. */
  ghost predicate OpenedAs(v: SoundView, v': SoundView, max: nat, cacheable: bool, path: seq<byte>,
                           first: Outcome, second: Outcome, dupOk: bool, r: Option<(int, Stat)>)
  {
    Handed(v, v', first, second, r) && Listed(v, v', max, cacheable, path, first, second, dupOk)
  }

  lemma OpenedWithoutStore(v: SoundView, w: SoundView, max: nat, cacheable: bool, path: seq<byte>,
                           first: Outcome, second: Outcome, dupOk: bool, r: Option<(int, Stat)>)
    requires LookedUp(v, w, cacheable, path, first, r) && (r.Some? || Fresh(second) == None)
    ensures OpenedAs(v, w, max, cacheable, path, first, second, dupOk, r)
  {
    HitIsFresh(v, path, first);
  }

  lemma HandedWithStore(v: SoundView, w: SoundView, fd: int, x: SoundView, max: nat, cacheable: bool, path: seq<byte>,
                        first: Outcome, second: Outcome, dupOk: bool)
    requires LookedUp(v, w, cacheable, path, first, None) && fd !in w.open && second.Opened? && second.stat.Some?
    requires StoredAs(WithOpen(w, fd), x, max, cacheable, path, second.stat.value, dupOk)
    ensures Handed(v, x, first, second, Some((fd, second.stat.value)))
  {
    OpenedOthers(w, fd);
    HandedOver(Others(v), Others(w), Others(x), fd);
  }

  lemma HandedOver(v: set<int>, w: set<int>, x: set<int>, fd: int)
    requires w == v + {} && x == w + {fd} && fd !in w
    ensures x == v + {fd} && fd !in v
  {
  }

  lemma ListedWithStore(v: SoundView, w: SoundView, fd: int, x: SoundView, max: nat, cacheable: bool, path: seq<byte>,
                        first: Outcome, second: Outcome, dupOk: bool)
    requires LookedUp(v, w, cacheable, path, first, None) && second.Opened? && second.stat.Some?
    requires StoredAs(WithOpen(w, fd), x, max, cacheable, path, second.stat.value, dupOk)
    ensures Listed(v, x, max, cacheable, path, first, second, dupOk)
  {
    OpenedItems(w, fd);
  }

  lemma OpenedItems(v: SoundView, fd: int)
    ensures Items(WithOpen(v, fd)) == Items(v)
  {
  }

  lemma HitIsFresh(v: SoundView, path: seq<byte>, o: Outcome)
    ensures Hit(Items(v), path, o) ==> Fresh(o).Some?
  {
  }

  lemma NothingDone(v: SoundView, path: seq<byte>, now: Outcome)
    ensures LookedUp(v, v, false, path, now, None)
  {
  }

  lemma NotFound(v: SoundView, path: seq<byte>, now: Outcome)
    requires forall i :: 0 <= i < |v.es| ==> !(v.es[i].valid && v.es[i].path == path)
    ensures LookedUp(v, v, true, path, now, None)
  {
    if !Cut(path, v.tainted) {
      NoPlace(v, path);
    }
  }

  lemma RecheckedApart(v: SoundView, p: nat, path: seq<byte>, now: Outcome, r: Option<(int, Stat)>)
    requires p < |v.order| && v.es[v.order[p]].path == path
    requires r.Some? <==> Same(now, Key(v.es[v.order[p]]))
    ensures LookedApart(v, Rechecked(v, p, now, r), true, path, r)
  {
    RecheckedIs(v, p, now, r);
  }

  lemma RecheckedMeans(v: SoundView, p: nat, path: seq<byte>, now: Outcome, r: Option<(int, Stat)>)
    requires p < |v.order| && v.es[v.order[p]].path == path
    requires r.Some? <==> Same(now, Key(v.es[v.order[p]]))
    requires r.Some? ==> r.value.0 !in v.open && r.value.1 == now.stat.value
    ensures LookedUp(v, Rechecked(v, p, now, r), true, path, now, r)
  {
    if r.Some? {
      var w := WithOpen(v, r.value.0);
      OpenedOthers(v, r.value.0);
      TouchedOthers(w, p);
      TouchedItems(w, p);
      OpenedItems(v, r.value.0);
    } else {
      DroppedOthers(v, p);
      DroppedItems(v, p);
      DroppedUnlisted(v, path, p);
    }
    assert Items(v)[p] == Key(v.es[v.order[p]]);
    if !Cut(path, v.tainted) {
      PlaceOf(v, path, p);
    }
  }

  /** The cache holds the last `max` different paths among the first n. */
  ghost predicate Holds(v: SoundView, files: Path -> Outcome, paths: seq<Path>, n: nat, max: nat) {
    n <= |paths| && !v.tainted && Items(v) == ItemsFor(files, Recent(Uses(paths, n), max))
  }

  lemma HoldsNext(v: SoundView, v': SoundView, files: Path -> Outcome, paths: seq<Path>, n: nat, max: nat, cacheable: bool, r: Option<(int, Stat)>)
    requires cacheable && n < |paths| && max > 0 && Holds(v, files, paths, n, max)
    requires |paths[n]| < PATH_SIZE && Readable(files, paths[n])
    requires OpenedAs(v, v', max, cacheable, paths[n], files(paths[n]), files(paths[n]), true, r)
    ensures Holds(v', files, paths, n + 1, max)
  {
    var u := Uses(paths, n);
    UsesDistinct(paths, n);
    OpeningKeepsRecent(files, u, max, paths[n]);
    assert Uses(paths, n + 1) == Used(u, paths[n]);
  }

  method OpenNext(cache: Cache, files: Path -> Outcome, paths: seq<Path>, n: nat)
    requires cache.Valid() && cache.drift == 0 && n < |paths| && Holds(cache.view, files, paths, n, cache.max)
    requires cache.Cacheable(paths[n]) && |paths[n]| < PATH_SIZE && Readable(files, paths[n])
    modifies cache`tick, cache`count, cache`view, cache`drift, cache.entries, cache.kernel
    ensures cache.Valid() && cache.drift == 0 && Holds(cache.view, files, paths, n + 1, cache.max)
  {
    ghost var v := cache.view;
    var answer := files(paths[n]);
    var r := cache.Open(paths[n], answer, answer, true);
    HoldsNext(v, cache.view, files, paths, n, cache.max, cache.Cacheable(paths[n]), r);
  }

  /** Over files that do not change and may be cached, the cache holds the last `max` different paths. */
  method OpenAll(cache: Cache, files: Path -> Outcome, paths: seq<Path>)
    requires cache.Valid() && cache.drift == 0 && Holds(cache.view, files, paths, 0, cache.max)
    requires forall k {:trigger paths[k]} :: 0 <= k < |paths| ==>
               cache.Cacheable(paths[k]) && |paths[k]| < PATH_SIZE && Readable(files, paths[k])
    modifies cache`tick, cache`count, cache`view, cache`drift, cache.entries, cache.kernel
    ensures cache.Valid() && cache.count == |cache.view.order|
    ensures Holds(cache.view, files, paths, |paths|, cache.max)
  {
    for n := 0 to |paths|
      invariant cache.Valid() && cache.drift == 0
      invariant Holds(cache.view, files, paths, n, cache.max)
    {
      OpenNext(cache, files, paths, n);
    }
  }

  /**
   A full cache of one entry, and an open whose dup fails: the entry is gone, and is still counted.
   */
  method FailedDupIsCounted(kernel: Kernel, kept: seq<byte>, next: seq<byte>, st: Stat) returns (cache: Cache)
    requires kept != next && |kept| < PATH_SIZE && |next| < PATH_SIZE && st.regular
    modifies kernel
    ensures cache.Valid() && cache.view.order == [] && cache.count == 1
  {
    cache := new Cache(true, 1, _ => false, kernel);
    var file := Opened(Some(st));
    assert cache.view.order == [] && Items(cache.view) == [];
    var r := cache.Open(kept, file, file, true);
    FirstItem(kept, st);
    r := cache.Open(next, file, file, false);
    SecondItem(kept, next, st);
    assert |cache.view.order| == |Items(cache.view)|;
  }

  lemma FirstItem(path: seq<byte>, st: Stat)
    requires st.regular
    ensures RecencyList.Opening([], 1, path, Opened(Some(st)), Opened(Some(st)), true) == [ItemOf(path, st)]
  {
  }

  lemma SecondItem(kept: seq<byte>, next: seq<byte>, st: Stat)
    requires kept != next && st.regular
    ensures var items := [ItemOf(kept, st)];
            && RecencyList.Opening(items, 1, next, Opened(Some(st)), Opened(Some(st)), false) == []
            && !KeepsCount(items, 1, next, Opened(Some(st)), Opened(Some(st)), false)
  {
    var items := [ItemOf(kept, st)];
    assert Place(items, next) == None by {
      assert items[..|items| - 1] == [];
    }
  }

  /** What a look-up that found the path at order[p] leaves. */
  ghost function Rechecked(v: SoundView, p: nat, now: Outcome, r: Option<(int, Stat)>): SoundView
    requires p < |v.order| && (r.Some? <==> Same(now, Key(v.es[v.order[p]])))
  {
    if r.Some? then Touched(WithOpen(v, r.value.0), p) else Dropped(v, p)
  }

  lemma RecheckedIs(v: SoundView, p: nat, now: Outcome, r: Option<(int, Stat)>)
    requires p < |v.order| && (r.Some? <==> Same(now, Key(v.es[v.order[p]])))
    ensures var k, w := v.order[p], Rechecked(v, p, now, r);
            && w.blocked == v.blocked && w.tainted == v.tainted
            && w.tick == (if r.Some? then v.tick + 1 else v.tick)
            && |w.order| == (if r.Some? then |v.order| else |v.order| - 1)
            && w.es == v.es[k := if r.Some? then v.es[k].(lastUsed := v.tick + 1) else EMPTY]
            && w.open == if r.Some? then v.open + {r.value.0} else v.open - {v.es[k].fd}
  {
  }

  /** All that a look-up does, seen from the recency list. */
  ghost predicate LookedUp(v: SoundView, v': SoundView, cacheable: bool, path: seq<byte>, now: Outcome, r: Option<(int, Stat)>) {
    && v'.tainted == v.tainted
    && Others(v') == Others(v) + (if r.Some? then {r.value.0} else {})
    && (r.Some? ==> r.value.0 !in v.open)
    && (!cacheable ==> v' == v && r.None?)
    && (cacheable && r.None? ==> Unlisted(v'.es, path, v.tainted))
    && (cacheable && !Cut(path, v.tainted) ==>
          && Items(v') == Looked(Items(v), path, now)
          && (r.Some? <==> Hit(Items(v), path, now)))
    && (r.Some? ==> now.Opened? && now.stat == Some(r.value.1))
  }

  /** What a look-up means for the paths: one too long for an entry is never found, and a miss leaves no entry of the path. */
  ghost predicate LookedApart(v: SoundView, v': SoundView, cacheable: bool, path: seq<byte>, r: Option<(int, Stat)>) {
    && (|path| >= PATH_SIZE ==> v' == v && r.None?)
    && (DistinctPaths(v.es) ==> DistinctPaths(v'.es) && (cacheable && r.None? ==> NotIn(v'.es, path)))
  }

  /** Short paths stay different from each other, whatever was stored before. */
  ghost predicate StaysApart(v: SoundView, v': SoundView, path: seq<byte>) {
    DistinctPaths(v.es) && |path| < PATH_SIZE ==> DistinctPaths(v'.es)
  }
}
