/** Building and freeing the C node tree of a JSON value (json.go).  Memory is
    a map from block numbers, given out in order of allocation, to contents. */
module JsonMemory {

  /** What matters of a value: the length of a text or number, the entries of a
      list, the values of a map in the order they are visited. */
  datatype Json = Scalar | Text(length: nat) | Unsupported | List(items: seq<Json>) | Dict(items: seq<Json>)

  datatype Ptr = Null | At(id: nat)
  datatype Place = Nowhere | Place(id: nat, index: nat)
  datatype Kind = NoKind | PlainKind | BytesKind | ArrayKind | ObjectKind
  datatype Node = Node(kind: Kind, value: Place)
  datatype Value =
    | Zero
    | Bytes(ptr: Ptr)
    | Array(elements: Ptr, elementValues: Ptr, count: nat)
    | Object(names: Ptr, fields: Ptr, lengths: Ptr, fieldValues: Ptr, count: nat)
  datatype Block = Nodes(nodes: seq<Node>) | Values(values: seq<Value>) | Names(names: seq<Ptr>) | Raw

  type Memory = map<nat, Block>

  // ----- how many blocks a value takes -----

  predicate Good(j: Json) {
    match j
    case Scalar => true
    case Text(_) => true
    case Unsupported => false
    case List(items) => forall i :: 0 <= i < |items| ==> Good(items[i])
    case Dict(items) => forall i :: 0 <= i < |items| ==> Good(items[i])
  }

  /** How many entries are begun: up to the first bad one. */
  function Reach(items: seq<Json>): (r: nat)
    ensures r <= |items|
    ensures forall k :: 0 <= k < r - 1 ==> Good(items[k])
    ensures r < |items| ==> r > 0
    ensures 0 < r ==> (r < |items| ==> !Good(items[r - 1]))
    ensures (forall k :: 0 <= k < |items| ==> Good(items[k])) ==> r == |items|
  {
    if items == [] then 0
    else if Good(items[0]) then 1 + Reach(items[1..])
    else 1
  }

  /** calloc of nothing may give NULL. */
  function One(e: bool, n: nat): nat { if e && n == 0 then 0 else 1 }

  function PtrAt(e: bool, n: nat, id: nat): Ptr { if e && n == 0 then Null else At(id) }

  /** The number of blocks used up by building a value. */
  function Ids(e: bool, j: Json): nat
    decreases j, 0
  {
    match j
    case Scalar => 0
    case Text(n) => One(e, n)
    case Unsupported => 0
    case List(items) => if items == [] then 2 * One(e, 0) else 2 + Span(e, items, 0, Reach(items))
    case Dict(items) => if items == [] then 4 * One(e, 0) else 4 + Span(e, items, 2, Reach(items))
  }

  /** ... and by the first k entries, each with `per` blocks for its key. */
  function Span(e: bool, items: seq<Json>, per: nat, k: nat): nat
    requires k <= |items|
    decreases items, k
  {
    if k == 0 then 0 else Span(e, items, per, k - 1) + per + Ids(e, items[k - 1])
  }

  lemma {:induction false} ReachAt(items: seq<Json>, i: nat)
    requires i < |items| && forall k :: 0 <= k < i ==> Good(items[k])
    ensures i < Reach(items) && (!Good(items[i]) ==> Reach(items) == i + 1)
  {
  }

  lemma {:induction false} Stopped(items: seq<Json>, i: nat)
    requires i < |items| && !Good(items[i])
    ensures !Good(List(items)) && !Good(Dict(items))
  {
  }

  lemma {:induction false} Finished(items: seq<Json>)
    requires forall k :: 0 <= k < |items| ==> Good(items[k])
    ensures Good(List(items)) && Good(Dict(items)) && Reach(items) == |items|
  {
  }

  lemma {:induction false} SpanGrows(e: bool, items: seq<Json>, per: nat, k: nat, m: nat)
    requires k <= m <= |items|
    ensures Span(e, items, per, k) <= Span(e, items, per, m)
    decreases m
  {
    if k < m {
      SpanGrows(e, items, per, k, m - 1);
    }
  }

  // ----- what a built value looks like -----

  predicate NodeAt(b: Memory, p: Place) { p.Place? && p.id in b && b[p.id].Nodes? && p.index < |b[p.id].nodes| }

  predicate ValueAt(b: Memory, p: Place) { p.Place? && p.id in b && b[p.id].Values? && p.index < |b[p.id].values| }

  function NodeOf(b: Memory, p: Place): Node
    requires NodeAt(b, p)
  {
    b[p.id].nodes[p.index]
  }

  function ValueOf(b: Memory, p: Place): Value
    requires ValueAt(b, p)
  {
    b[p.id].values[p.index]
  }

  /** A node with a value of its own, both below `lo`. */
  predicate Ready(b: Memory, at: Place, v: Place, lo: nat) {
    NodeAt(b, at) && NodeOf(b, at).value == v && ValueAt(b, v) && at.id < lo && v.id < lo
  }

  predicate NodesBlock(b: Memory, id: nat, n: nat) { id in b && b[id].Nodes? && |b[id].nodes| == n }
  predicate ValuesBlock(b: Memory, id: nat, n: nat) { id in b && b[id].Values? && |b[id].values| == n }
  predicate NamesBlock(b: Memory, id: nat, n: nat) { id in b && b[id].Names? && |b[id].names| == n }

  /** The node at `at` holds what was built for `j` in the blocks from `lo` on. */
  ghost predicate Built(e: bool, b: Memory, at: Place, v: Place, j: Json, lo: nat)
    decreases j, 0
  {
    && Ready(b, at, v, lo)
    && var kind, value := NodeOf(b, at).kind, ValueOf(b, v);
       match j
       case Scalar => kind == PlainKind
       case Unsupported => kind == NoKind
       case Text(n) => kind == BytesKind && value == Bytes(PtrAt(e, n, lo)) && (One(e, n) == 1 ==> lo in b)
       case List(items) =>
         && kind == ArrayKind
         && value == Array(PtrAt(e, |items|, lo), PtrAt(e, |items|, lo + 1), |items|)
         && (One(e, |items|) == 1 ==> NodesBlock(b, lo, |items|) && ValuesBlock(b, lo + 1, |items|))
         && Kids(e, b, items, 0, lo, lo + 1, lo + 2, 0)
       case Dict(items) =>
         && kind == ObjectKind
         && value == Object(PtrAt(e, |items|, lo), PtrAt(e, |items|, lo + 1), PtrAt(e, |items|, lo + 2),
              PtrAt(e, |items|, lo + 3), |items|)
         && (One(e, |items|) == 1 ==>
              NamesBlock(b, lo, |items|) && NodesBlock(b, lo + 1, |items|) && lo + 2 in b
              && ValuesBlock(b, lo + 3, |items|))
         && Keys(e, b, items, lo, lo + 4, 0)
         && Kids(e, b, items, 2, lo + 1, lo + 3, lo + 4, 0)
  }

  /** The entries from `from` on: built up to the first bad one, untouched after it. */
  ghost predicate Kids(e: bool, b: Memory, items: seq<Json>, per: nat, nodes: nat, values: nat, lo: nat, from: nat)
    decreases items, 1
  {
    forall k :: from <= k < |items| ==> Kid(e, b, items, per, nodes, values, lo, k)
  }

  ghost predicate Kid(e: bool, b: Memory, items: seq<Json>, per: nat, nodes: nat, values: nat, lo: nat, k: nat)
    requires k < |items|
    decreases items, 0
  {
    && NodeAt(b, Place(nodes, k))
    && if k < Reach(items)
       then Built(e, b, Place(nodes, k), Place(values, k), items[k], lo + Span(e, items, per, k) + per)
       else NodeOf(b, Place(nodes, k)) == Node(NoKind, Nowhere)
  }

  /** The names from `from` on: one block each, after the temporary copy of the key. */
  ghost predicate Keys(e: bool, b: Memory, items: seq<Json>, names: nat, lo: nat, from: nat) {
    forall k :: from <= k < |items| ==> Key(e, b, items, names, lo, k)
  }

  ghost predicate Key(e: bool, b: Memory, items: seq<Json>, names: nat, lo: nat, k: nat)
    requires k < |items|
  {
    && names in b && b[names].Names? && k < |b[names].names|
    && var id := lo + Span(e, items, 2, k);
       if k < Reach(items)
       then id !in b && b[names].names[k] == At(id + 1) && id + 1 in b
       else b[names].names[k] == Null
  }

  // ----- two memories -----

  ghost predicate Same(b: Memory, c: Memory, lo: nat, hi: nat) {
    forall x :: lo <= x < hi ==> (x in b <==> x in c) && (x in b ==> b[x] == c[x])
  }

  lemma {:induction false} Frame(e: bool, b: Memory, c: Memory, at: Place, v: Place, j: Json, lo: nat)
    requires Built(e, b, at, v, j, lo) && Ready(c, at, v, lo)
    requires NodeOf(b, at) == NodeOf(c, at) && ValueOf(b, v) == ValueOf(c, v)
    requires Same(b, c, lo, lo + Ids(e, j))
    ensures Built(e, c, at, v, j, lo)
    decreases j
  {
    match j
    case List(items) =>
      if items != [] {
        FrameKids(e, b, c, items, 0, lo, lo + 1, lo + 2);
      }
    case Dict(items) =>
      if items != [] {
        FrameKids(e, b, c, items, 2, lo + 1, lo + 3, lo + 4);
        FrameKeys(e, b, c, items, lo, lo + 4);
      }
    case _ =>
  }

  lemma {:induction false} FrameKids(e: bool, b: Memory, c: Memory, items: seq<Json>, per: nat, nodes: nat,
          values: nat, lo: nat)
    requires Kids(e, b, items, per, nodes, values, lo, 0) && nodes < lo && values < lo
    requires NodesBlock(b, nodes, |items|) && nodes in c && b[nodes] == c[nodes]
    requires ValuesBlock(b, values, |items|) && values in c && b[values] == c[values]
    requires Same(b, c, lo, lo + Span(e, items, per, Reach(items)))
    ensures Kids(e, c, items, per, nodes, values, lo, 0)
    decreases items, 1
  {
    forall k | 0 <= k < |items| ensures Kid(e, c, items, per, nodes, values, lo, k) {
      assert Kid(e, b, items, per, nodes, values, lo, k);
      if k < Reach(items) {
        SpanGrows(e, items, per, k + 1, Reach(items));
      }
      FrameKid(e, b, c, items, per, nodes, values, lo, k);
    }
  }

  lemma {:induction false} FrameKeys(e: bool, b: Memory, c: Memory, items: seq<Json>, names: nat, lo: nat)
    requires Keys(e, b, items, names, lo, 0)
    requires names in b && names in c && b[names] == c[names]
    requires Same(b, c, lo, lo + Span(e, items, 2, Reach(items)))
    ensures Keys(e, c, items, names, lo, 0)
  {
    forall k | 0 <= k < |items| ensures Key(e, c, items, names, lo, k) {
      assert Key(e, b, items, names, lo, k);
      if k < Reach(items) {
        SpanGrows(e, items, 2, k + 1, Reach(items));
      }
      FrameKey(e, b, c, items, names, lo, k);
    }
  }

  lemma {:induction false} FrameKid(e: bool, b: Memory, c: Memory, items: seq<Json>, per: nat, nodes: nat,
          values: nat, lo: nat, k: nat)
    requires k < |items| && Kid(e, b, items, per, nodes, values, lo, k)
    requires nodes < lo && values < lo
    requires NodeAt(c, Place(nodes, k)) && NodeOf(c, Place(nodes, k)) == NodeOf(b, Place(nodes, k))
    requires k < Reach(items) ==>
             ValueAt(b, Place(values, k)) && ValueAt(c, Place(values, k))
             && ValueOf(c, Place(values, k)) == ValueOf(b, Place(values, k))
    requires k < Reach(items) ==> Same(b, c, lo + Span(e, items, per, k), lo + Span(e, items, per, k + 1))
    ensures Kid(e, c, items, per, nodes, values, lo, k)
    decreases items, 0
  {
    if k < Reach(items) {
      Frame(e, b, c, Place(nodes, k), Place(values, k), items[k], lo + Span(e, items, per, k) + per);
    }
  }

  lemma {:induction false} FrameKey(e: bool, b: Memory, c: Memory, items: seq<Json>, names: nat, lo: nat, k: nat)
    requires k < |items| && Key(e, b, items, names, lo, k)
    requires names in c && b[names] == c[names]
    requires k < Reach(items) ==> Same(b, c, lo + Span(e, items, 2, k), lo + Span(e, items, 2, k + 1))
    ensures Key(e, c, items, names, lo, k)
  {
  }

  // ----- building -----

  /** Below `lo` only the node at `at` and its value may differ. */
  ghost predicate OnlyAt(b: Memory, c: Memory, at: Place, v: Place, lo: nat)
    requires NodeAt(b, at) && ValueAt(b, v)
  {
    && (forall x :: x < lo ==> (x in b <==> x in c) && (x in b && x != at.id && x != v.id ==> b[x] == c[x]))
    && NodesBlock(c, at.id, |b[at.id].nodes|)
    && (forall k :: 0 <= k < |b[at.id].nodes| && k != at.index ==> c[at.id].nodes[k] == b[at.id].nodes[k])
    && ValuesBlock(c, v.id, |b[v.id].values|)
    && (forall k :: 0 <= k < |b[v.id].values| && k != v.index ==> c[v.id].values[k] == b[v.id].values[k])
  }

  /** Below `lo` only the two blocks may differ, and these keep their sizes. */
  ghost predicate OnlyIn(b: Memory, c: Memory, nodes: nat, values: nat, n: nat, lo: nat) {
    && (forall x :: x < lo ==> (x in b <==> x in c) && (x in b && x != nodes && x != values ==> b[x] == c[x]))
    && NodesBlock(c, nodes, n) && ValuesBlock(c, values, n)
  }

  /** The first `i` entries are built, the others untouched. */
  ghost predicate Filled(e: bool, b: Memory, items: seq<Json>, per: nat, nodes: nat, values: nat, lo: nat, i: nat)
    requires i <= |items|
  {
    && NodesBlock(b, nodes, |items|) && ValuesBlock(b, values, |items|) && nodes < lo && values < lo
    && (forall k :: 0 <= k < i ==> Kid(e, b, items, per, nodes, values, lo, k))
    && (forall k :: i <= k < |items| ==> b[nodes].nodes[k] == Node(NoKind, Nowhere))
  }

  function WithNode(b: Memory, at: Place, node: Node): Memory
    requires NodeAt(b, at)
  {
    b[at.id := Nodes(b[at.id].nodes[at.index := node])]
  }

  function WithValue(b: Memory, v: Place, value: Value): Memory
    requires ValueAt(b, v)
  {
    b[v.id := Values(b[v.id].values[v.index := value])]
  }

  lemma {:induction false} FillReady(e: bool, b: Memory, items: seq<Json>, per: nat, nodes: nat, values: nat, lo: nat,
          i: nat)
    requires i < |items| && Filled(e, b, items, per, nodes, values, lo, i)
    ensures var at, v := Place(nodes, i), Place(values, i);
            && NodeAt(b, at)
            && var m := WithNode(b, at, Node(NoKind, v));
               Ready(m, at, v, lo + Span(e, items, per, i) + per) && NodeOf(m, at) == Node(NoKind, v)
  {
  }

  /** One more entry: building it does not disturb the ones before. */
  lemma {:induction false} FillStep(e: bool, o: Memory, b: Memory, c: Memory, items: seq<Json>, per: nat, nodes: nat,
          values: nat, lo: nat, i: nat, keep: nat)
    requires i < Reach(items) && Filled(e, b, items, per, nodes, values, lo, i)
    requires OnlyIn(o, b, nodes, values, |items|, keep) && keep <= lo + Span(e, items, per, i) + per
    requires NodeAt(b, Place(nodes, i))
    requires var at, v, m := Place(nodes, i), Place(values, i),
             WithNode(b, Place(nodes, i), Node(NoKind, Place(values, i)));
             var base := lo + Span(e, items, per, i) + per;
             ValueAt(m, v) && OnlyAt(m, c, at, v, base) && Built(e, c, at, v, items[i], base)
    ensures Filled(e, c, items, per, nodes, values, lo, i + 1) && OnlyIn(o, c, nodes, values, |items|, keep)
  {
    hide Built, Ids;
    forall k | 0 <= k < i ensures Kid(e, c, items, per, nodes, values, lo, k) {
      assert Kid(e, b, items, per, nodes, values, lo, k);
      SpanGrows(e, items, per, k + 1, i);
      KidKept(e, b, c, items, per, nodes, values, lo, k, i);
    }
  }

  lemma {:induction false} KidKept(e: bool, b: Memory, c: Memory, items: seq<Json>, per: nat, nodes: nat, values: nat,
          lo: nat, k: nat, i: nat)
    requires k < i < Reach(items) && Kid(e, b, items, per, nodes, values, lo, k) && nodes < lo && values < lo
    requires NodeAt(c, Place(nodes, k)) && NodeOf(c, Place(nodes, k)) == NodeOf(b, Place(nodes, k))
    requires ValueAt(b, Place(values, k)) && ValueAt(c, Place(values, k))
             && ValueOf(c, Place(values, k)) == ValueOf(b, Place(values, k))
    requires Same(b, c, lo, lo + Span(e, items, per, i))
    ensures Kid(e, c, items, per, nodes, values, lo, k)
  {
    SpanGrows(e, items, per, k + 1, i);
    FrameKid(e, b, c, items, per, nodes, values, lo, k);
  }

  lemma {:induction false} OnlyInSelf(e: bool, b: Memory, items: seq<Json>, nodes: nat, values: nat, lo: nat)
    requires Filled(e, b, items, 0, nodes, values, lo, 0)
    ensures OnlyIn(b, b, nodes, values, |items|, lo)
  {
  }

  lemma {:induction false} OnlyObjectSelf(b: Memory, names: nat, nodes: nat, values: nat, lo: nat)
    ensures OnlyObject(b, b, names, nodes, values, lo)
  {
  }

  lemma {:induction false} SpanNone(e: bool, items: seq<Json>, per: nat)
    ensures Span(e, items, per, 0) == 0
  {
  }

  function NoNodes(n: nat): Block { Nodes(seq(n, _ => Node(NoKind, Nowhere))) }
  function NoValues(n: nat): Block { Values(seq(n, _ => Zero)) }
  function NoNames(n: nat): Block { Names(seq(n, _ => Null)) }

  predicate Below(b: Memory, lo: nat) { forall x :: x in b ==> x < lo }

  /** The memory when the blocks of an array are there and no entry is. */
  function NewArray(o: Memory, at: Place, v: Place, n: nat, lo: nat): Memory
    requires Ready(o, at, v, lo)
  {
    WithValue(WithNode(o, at, Node(ArrayKind, v))[lo := NoNodes(n)][lo + 1 := NoValues(n)], v,
      Array(At(lo), At(lo + 1), n))
  }

  lemma {:induction false} ArrayStart(e: bool, o: Memory, at: Place, v: Place, items: seq<Json>, lo: nat)
    requires Ready(o, at, v, lo) && Below(o, lo)
    ensures Filled(e, NewArray(o, at, v, |items|, lo), items, 0, lo, lo + 1, lo + 2, 0)
  {
  }

  lemma {:induction false} ArrayDone(e: bool, o: Memory, c: Memory, at: Place, v: Place, items: seq<Json>, lo: nat)
    requires Ready(o, at, v, lo) && Below(o, lo) && One(e, |items|) == 1
    requires Filled(e, c, items, 0, lo, lo + 1, lo + 2, Reach(items))
    requires OnlyIn(NewArray(o, at, v, |items|, lo), c, lo, lo + 1, |items|, lo + 2)
    ensures Built(e, c, at, v, List(items), lo) && OnlyAt(o, c, at, v, lo)
  {
    hide Kid, Reach;
    var b := NewArray(o, at, v, |items|, lo);
    assert c[at.id] == b[at.id] && c[v.id] == b[v.id];
    FilledKids(e, c, items, 0, lo, lo + 1, lo + 2);
  }

  lemma {:induction false} FilledKids(e: bool, b: Memory, items: seq<Json>, per: nat, nodes: nat, values: nat, lo: nat)
    requires Filled(e, b, items, per, nodes, values, lo, Reach(items))
    ensures Kids(e, b, items, per, nodes, values, lo, 0)
  {
  }

  /** An array of nothing, where calloc of nothing gives NULL. */
  lemma {:induction false} ArrayNull(o: Memory, at: Place, v: Place, lo: nat)
    requires Ready(o, at, v, lo)
    ensures var c := WithValue(WithNode(o, at, Node(ArrayKind, v)), v, Array(Null, Null, 0));
            Built(true, c, at, v, List([]), lo) && OnlyAt(o, c, at, v, lo)
  {
  }

  /** The memory when the blocks of an object are there and no entry is. */
  function NewObject(o: Memory, at: Place, v: Place, n: nat, lo: nat): Memory
    requires Ready(o, at, v, lo)
  {
    WithValue(
      WithNode(o, at, Node(ObjectKind, v))
        [lo := NoNames(n)][lo + 1 := NoNodes(n)][lo + 2 := Raw][lo + 3 := NoValues(n)],
      v, Object(At(lo), At(lo + 1), At(lo + 2), At(lo + 3), n))
  }

  /** The first `i` keys are there, the others are not. */
  ghost predicate Keyed(e: bool, b: Memory, items: seq<Json>, names: nat, lo: nat, i: nat)
    requires i <= |items|
  {
    && NamesBlock(b, names, |items|) && names < lo
    && (forall k :: 0 <= k < i ==> Key(e, b, items, names, lo, k))
    && (forall k :: i <= k < |items| ==> b[names].names[k] == Null)
  }

  /** Below `lo` only the three blocks of an object may differ. */
  ghost predicate OnlyObject(b: Memory, c: Memory, names: nat, nodes: nat, values: nat, lo: nat) {
    forall x :: x < lo ==> (x in b <==> x in c) && (x in b && x != names && x != nodes && x != values ==> b[x] == c[x])
  }

  function WithKey(b: Memory, names: nat, i: nat, id: nat): Memory
    requires names in b && b[names].Names? && i < |b[names].names|
  {
    b[id + 1 := Raw][names := Names(b[names].names[i := At(id + 1)])]
  }

  lemma {:induction false} KeyKeeps(e: bool, b: Memory, items: seq<Json>, names: nat, nodes: nat, values: nat,
          lo: nat, i: nat)
    requires i < Reach(items) && Keyed(e, b, items, names, lo, i) && Filled(e, b, items, 2, nodes, values, lo, i)
    requires Below(b, lo + Span(e, items, 2, i))
    ensures var id := lo + Span(e, items, 2, i);
            var c := WithKey(b, names, i, id);
            Filled(e, c, items, 2, nodes, values, lo, i) && OnlyIn(c, c, nodes, values, |items|, id + 2)
  {
    hide Built, Ids;
    var id := lo + Span(e, items, 2, i);
    var c := WithKey(b, names, i, id);
    forall k | 0 <= k < i ensures Kid(e, c, items, 2, nodes, values, lo, k) {
      assert Kid(e, b, items, 2, nodes, values, lo, k);
      KidKept(e, b, c, items, 2, nodes, values, lo, k, i);
    }
  }

  lemma {:induction false} KeyStep(e: bool, o: Memory, b: Memory, k: Memory, c: Memory, items: seq<Json>, names: nat,
          nodes: nat, values: nat, lo: nat, i: nat, id: nat)
    requires i < Reach(items) && Keyed(e, b, items, names, lo, i) && Filled(e, b, items, 2, nodes, values, lo, i)
    requires OnlyObject(o, b, names, nodes, values, lo)
    requires id == lo + Span(e, items, 2, i) && Below(b, id)
    requires k == WithKey(b, names, i, id) && OnlyIn(k, c, nodes, values, |items|, id + 2)
    ensures Keyed(e, c, items, names, lo, i + 1) && OnlyObject(o, c, names, nodes, values, lo)
  {
    hide Key, Reach, Ids, Kid;
    forall n | 0 <= n < i + 1 ensures Key(e, c, items, names, lo, n) {
      KeyThere(e, b, c, items, names, lo, i, n);
    }
  }

  lemma {:induction false} KeyThere(e: bool, b: Memory, c: Memory, items: seq<Json>, names: nat, lo: nat, i: nat,
          k: nat)
    requires k <= i < Reach(items) && Keyed(e, b, items, names, lo, i) && Below(b, lo + Span(e, items, 2, i))
    requires var id := lo + Span(e, items, 2, i);
             && names in c && c[names] == WithKey(b, names, i, id)[names]
             && Same(WithKey(b, names, i, id), c, lo, id + 2)
    ensures Key(e, c, items, names, lo, k)
  {
    hide Ids;
    if k < i {
      assert Key(e, b, items, names, lo, k);
      SpanGrows(e, items, 2, k + 1, i);
    }
  }

  lemma {:induction false} ObjectStart(e: bool, o: Memory, at: Place, v: Place, items: seq<Json>, lo: nat)
    requires Ready(o, at, v, lo) && Below(o, lo)
    ensures var b := NewObject(o, at, v, |items|, lo);
            Filled(e, b, items, 2, lo + 1, lo + 3, lo + 4, 0) && Keyed(e, b, items, lo, lo + 4, 0)
  {
  }

  lemma {:induction false} ObjectDone(e: bool, o: Memory, c: Memory, at: Place, v: Place, items: seq<Json>, lo: nat)
    requires Ready(o, at, v, lo) && Below(o, lo) && One(e, |items|) == 1
    requires Filled(e, c, items, 2, lo + 1, lo + 3, lo + 4, Reach(items))
             && Keyed(e, c, items, lo, lo + 4, Reach(items))
    requires OnlyObject(NewObject(o, at, v, |items|, lo), c, lo, lo + 1, lo + 3, lo + 4)
    ensures Built(e, c, at, v, Dict(items), lo) && OnlyAt(o, c, at, v, lo)
  {
    FilledKids(e, c, items, 2, lo + 1, lo + 3, lo + 4);
    KeyedKeys(e, c, items, lo, lo + 4);
    hide Kid, Key, Kids, Keys, Reach, Filled, Keyed;
    ObjectKept(o, c, at, v, |items|, lo);
    hide OnlyAt, OnlyObject, NewObject;
  }

  lemma {:induction false} ObjectKept(o: Memory, c: Memory, at: Place, v: Place, n: nat, lo: nat)
    requires Ready(o, at, v, lo) && Below(o, lo)
             && OnlyObject(NewObject(o, at, v, n, lo), c, lo, lo + 1, lo + 3, lo + 4)
    ensures OnlyAt(o, c, at, v, lo) && Ready(c, at, v, lo) && NodeOf(c, at).kind == ObjectKind && lo + 2 in c
    ensures ValueOf(c, v) == Object(At(lo), At(lo + 1), At(lo + 2), At(lo + 3), n)
  {
    var b := NewObject(o, at, v, n, lo);
    assert c[at.id] == b[at.id] && c[v.id] == b[v.id];
  }

  lemma {:induction false} KeyedKeys(e: bool, b: Memory, items: seq<Json>, names: nat, lo: nat)
    requires Keyed(e, b, items, names, lo, Reach(items))
    ensures Keys(e, b, items, names, lo, 0)
  {
  }

  lemma {:induction false} ObjectNull(o: Memory, at: Place, v: Place, lo: nat)
    requires Ready(o, at, v, lo)
    ensures var c := WithValue(WithNode(o, at, Node(ObjectKind, v)), v, Object(Null, Null, Null, Null, 0));
            Built(true, c, at, v, Dict([]), lo) && OnlyAt(o, c, at, v, lo)
  {
  }

  // ----- freeing -----

  /** The blocks from `lo` to `hi` are gone, the value at `v` may differ, all else is as before. */
  ghost predicate Freed(b: Memory, c: Memory, v: Place, lo: nat, hi: nat)
    requires ValueAt(b, v)
  {
    && (forall x :: lo <= x < hi ==> x !in c)
    && (forall x :: x < lo || hi <= x ==> (x in b <==> x in c) && (x in b && x != v.id ==> c[x] == b[x]))
    && ValuesBlock(c, v.id, |b[v.id].values|)
    && (forall k :: 0 <= k < |b[v.id].values| && k != v.index ==> c[v.id].values[k] == b[v.id].values[k])
  }

  function KindOf(j: Json): Kind {
    match j
    case Scalar => PlainKind
    case Text(_) => BytesKind
    case Unsupported => NoKind
    case List(_) => ArrayKind
    case Dict(_) => ObjectKind
  }

  /** No block is named by the value. */
  predicate NamesNothing(kind: Kind, value: Value) {
    match kind
    case NoKind => true
    case PlainKind => true
    case BytesKind => value == Bytes(Null)
    case ArrayKind => value.Array? && value.elements == Null && value.elementValues == Null
    case ObjectKind =>
      && value.Object? && value.names == Null && value.fields == Null && value.lengths == Null
      && value.fieldValues == Null
  }

  /** What freeing leaves of the node of `j`. */
  predicate Hollow(b: Memory, at: Place, v: Place, j: Json) {
    && NodeAt(b, at) && NodeOf(b, at) == Node(KindOf(j), v)
    && ValueAt(b, v) && NamesNothing(KindOf(j), ValueOf(b, v))
  }

  lemma {:induction false} HollowNow(e: bool, b: Memory, c: Memory, at: Place, v: Place, j: Json, lo: nat, hi: nat)
    requires Built(e, b, at, v, j, lo) && ValueAt(b, v) && Freed(b, c, v, lo, hi)
    requires ValueAt(c, v) && NamesNothing(KindOf(j), ValueOf(c, v))
    ensures Hollow(c, at, v, j)
  {
    BuiltReady(e, b, at, v, j, lo);
    assert NodeOf(b, at).kind == KindOf(j);
    hide Kids, Keys;
  }

  function Least(i: nat, m: nat): nat { if i < m then i else m }

  lemma {:induction false} NothingFreed(b: Memory, v: Place, lo: nat)
    requires ValueAt(b, v)
    ensures Freed(b, b, v, lo, lo)
  {
  }

  /** x belongs to one of the first m entries, keys aside. */
  ghost predicate Inner(e: bool, items: seq<Json>, per: nat, lo: nat, m: nat, x: nat)
    requires m <= |items|
    decreases m
  {
    m > 0 && (lo + Span(e, items, per, m - 1) + per <= x < lo + Span(e, items, per, m)
      || Inner(e, items, per, lo, m - 1, x))
  }

  lemma {:induction false} InnerBounds(e: bool, items: seq<Json>, per: nat, lo: nat, m: nat, x: nat)
    requires m <= |items| && Inner(e, items, per, lo, m, x)
    ensures lo + per <= x < lo + Span(e, items, per, m)
    decreases m
  {
    if m > 1 && Inner(e, items, per, lo, m - 1, x) {
      InnerBounds(e, items, per, lo, m - 1, x);
    }
  }

  /** The entries before m are gone, those from `from` on are still there. */
  ghost predicate KidsFreed(e: bool, b: Memory, c: Memory, items: seq<Json>, per: nat, nodes: nat, values: nat,
          lo: nat, m: nat)
    requires m <= |items|
  {
    && (forall x :: Inner(e, items, per, lo, m, x) ==> x !in c)
    && (forall x :: !Inner(e, items, per, lo, m, x) ==>
         (x in b <==> x in c) && (x in b && x != values ==> c[x] == b[x]))
    && NodesBlock(c, nodes, |items|) && ValuesBlock(c, values, |items|)
  }

  lemma {:induction false} FreeStep(e: bool, o: Memory, b: Memory, c: Memory, items: seq<Json>, per: nat, nodes: nat,
          values: nat, lo: nat, i: nat)
    requires i < Reach(items) && nodes < lo && values < lo
    requires KidsFreed(e, o, b, items, per, nodes, values, lo, i) && Kids(e, b, items, per, nodes, values, lo, i)
    requires Freed(b, c, Place(values, i), lo + Span(e, items, per, i) + per, lo + Span(e, items, per, i + 1))
    ensures KidsFreed(e, o, c, items, per, nodes, values, lo, i + 1) && Kids(e, c, items, per, nodes, values, lo, i + 1)
  {
    hide *;
    FreedBlocks(e, o, b, items, per, nodes, values, lo, i);
    OneMoreFreed(e, o, b, c, items, per, nodes, values, lo, i);
    LaterKept(e, b, c, items, per, nodes, values, lo, i);
  }

  lemma {:induction false} FreedBlocks(e: bool, o: Memory, b: Memory, items: seq<Json>, per: nat, nodes: nat,
          values: nat, lo: nat, i: nat)
    requires i < |items| && KidsFreed(e, o, b, items, per, nodes, values, lo, i)
    ensures NodesBlock(b, nodes, |items|) && ValuesBlock(b, values, |items|) && ValueAt(b, Place(values, i))
  {
  }

  lemma {:induction false} OneMoreFreed(e: bool, o: Memory, b: Memory, c: Memory, items: seq<Json>, per: nat,
          nodes: nat, values: nat, lo: nat, i: nat)
    requires i < |items| && nodes < lo && values < lo && ValueAt(b, Place(values, i))
    requires KidsFreed(e, o, b, items, per, nodes, values, lo, i)
    requires Freed(b, c, Place(values, i), lo + Span(e, items, per, i) + per, lo + Span(e, items, per, i + 1))
    ensures KidsFreed(e, o, c, items, per, nodes, values, lo, i + 1)
  {
    hide Span, Reach;
  }

  lemma {:induction false} LaterKept(e: bool, b: Memory, c: Memory, items: seq<Json>, per: nat, nodes: nat,
          values: nat, lo: nat, i: nat)
    requires i < |items| && nodes < lo && values < lo && ValueAt(b, Place(values, i))
    requires NodesBlock(b, nodes, |items|) && ValuesBlock(b, values, |items|)
    requires Kids(e, b, items, per, nodes, values, lo, i)
    requires Freed(b, c, Place(values, i), lo + Span(e, items, per, i) + per, lo + Span(e, items, per, i + 1))
    ensures Kids(e, c, items, per, nodes, values, lo, i + 1)
  {
    hide Kid, Ids, Reach;
    forall k | i + 1 <= k < |items| ensures Kid(e, c, items, per, nodes, values, lo, k) {
      assert Kid(e, b, items, per, nodes, values, lo, k);
      SpanGrows(e, items, per, i + 1, k);
      FrameKid(e, b, c, items, per, nodes, values, lo, k);
    }
  }

  /** What the loop over the entries sees: a value exactly where something was built. */
  lemma {:induction false} KidSeen(e: bool, b: Memory, items: seq<Json>, per: nat, nodes: nat, values: nat, lo: nat,
          i: nat)
    requires i < |items| && Kids(e, b, items, per, nodes, values, lo, i)
    ensures NodeAt(b, Place(nodes, i)) && (NodeOf(b, Place(nodes, i)).value != Nowhere <==> i < Reach(items))
    ensures i < Reach(items) ==>
            Built(e, b, Place(nodes, i), Place(values, i), items[i], lo + Span(e, items, per, i) + per)
    ensures Kids(e, b, items, per, nodes, values, lo, i + 1)
  {
    assert Kid(e, b, items, per, nodes, values, lo, i);
    if i < Reach(items) {
      BuiltReady(e, b, Place(nodes, i), Place(values, i), items[i], lo + Span(e, items, per, i) + per);
    }
  }

  lemma {:induction false} BuiltReady(e: bool, b: Memory, at: Place, v: Place, j: Json, lo: nat)
    requires Built(e, b, at, v, j, lo)
    ensures Ready(b, at, v, lo)
  {
  }

  /** Without keys in between, the blocks of all entries are a whole range. */
  lemma {:induction false} KidsGone(e: bool, o: Memory, c: Memory, items: seq<Json>, nodes: nat, values: nat, lo: nat,
          m: nat)
    requires m <= |items| && KidsFreed(e, o, c, items, 0, nodes, values, lo, m)
    ensures forall x: nat :: lo <= x < lo + Span(e, items, 0, m) ==> x !in c
    ensures forall x: nat :: x < lo || lo + Span(e, items, 0, m) <= x ==>
            (x in o <==> x in c) && (x in o && x != values ==> c[x] == o[x])
  {
    forall x: nat | lo <= x < lo + Span(e, items, 0, m) ensures x !in c {
      InnerAll(e, items, lo, m, x);
    }
    forall x: nat | x < lo || lo + Span(e, items, 0, m) <= x
      ensures (x in o <==> x in c) && (x in o && x != values ==> c[x] == o[x])
    {
      if Inner(e, items, 0, lo, m, x) {
        InnerBounds(e, items, 0, lo, m, x);
      }
    }
  }

  lemma {:induction false} InnerAll(e: bool, items: seq<Json>, lo: nat, m: nat, x: nat)
    requires m <= |items| && lo <= x < lo + Span(e, items, 0, m)
    ensures Inner(e, items, 0, lo, m, x)
    decreases m
  {
    if m > 0 && x < lo + Span(e, items, 0, m - 1) {
      InnerAll(e, items, lo, m - 1, x);
    }
  }

  /** Of the blocks of `o` those in `gone` are gone; the ones in `touched` and the value at `v` may differ. */
  ghost predicate Removed(o: Memory, c: Memory, v: Place, gone: iset<nat>, touched: iset<nat>)
    requires ValueAt(o, v)
  {
    && (forall x: nat :: x in c <==> x in o && x !in gone)
    && (forall x: nat :: x in c && x !in touched && x != v.id ==> c[x] == o[x])
    && ValuesBlock(c, v.id, |o[v.id].values|)
    && (forall k :: 0 <= k < |o[v.id].values| && k != v.index ==> c[v.id].values[k] == o[v.id].values[k])
  }

  lemma {:induction false} RemoveOne(o: Memory, c: Memory, v: Place, gone: iset<nat>, touched: iset<nat>, id: nat)
    requires ValueAt(o, v) && Removed(o, c, v, gone, touched) && id != v.id
    ensures Removed(o, c - {id}, v, gone + iset{id}, touched)
  {
  }

  lemma {:induction false} SetOne(o: Memory, c: Memory, v: Place, gone: iset<nat>, touched: iset<nat>, value: Value)
    requires ValueAt(o, v) && Removed(o, c, v, gone, touched)
    ensures ValueAt(c, v) && Removed(o, WithValue(c, v, value), v, gone, touched)
  {
  }

  function WithName(b: Memory, names: nat, i: nat, p: Ptr): Memory
    requires names in b && b[names].Names? && i < |b[names].names|
  {
    b[names := Names(b[names].names[i := p])]
  }

  lemma {:induction false} TouchName(o: Memory, c: Memory, v: Place, gone: iset<nat>, touched: iset<nat>, names: nat,
          i: nat, p: Ptr)
    requires ValueAt(o, v) && Removed(o, c, v, gone, touched) && names in touched && names != v.id
    requires names in c && c[names].Names? && i < |c[names].names|
    ensures Removed(o, WithName(c, names, i, p), v, gone, touched)
  {
  }

  predicate Between(lo: nat, x: nat, hi: nat) { lo <= x < hi }

  ghost function Range(lo: nat, hi: nat): iset<nat> { iset x: nat | Between(lo, x, hi) }

  lemma {:induction false} ElementsRemoved(e: bool, o: Memory, c: Memory, v: Place, items: seq<Json>, nodes: nat,
          values: nat, lo: nat)
    requires ValueAt(o, v) && v.id < lo && v.id != values && nodes in o && nodes < lo && values in o && values < lo
    requires KidsFreed(e, o, c, items, 0, nodes, values, lo, Reach(items))
    ensures Removed(o, c, v, Range(lo, lo + Span(e, items, 0, Reach(items))), iset{values})
    ensures nodes in c && values in c
  {
    hide Reach;
    KidsGone(e, o, c, items, nodes, values, lo, Reach(items));
    hide KidsFreed, Inner;
  }

  lemma {:induction false} ArrayFreed(o: Memory, d: Memory, v: Place, lo: nat, hi: nat)
    requires ValueAt(o, v) && lo + 2 <= hi
             && Removed(o, d, v, Range(lo + 2, hi) + iset{lo} + iset{lo + 1}, iset{lo + 1})
    ensures Freed(o, d, v, lo, hi)
  {
    RangeFreed(o, d, v, lo, hi, Range(lo + 2, hi) + iset{lo} + iset{lo + 1}, iset{lo + 1});
  }

  lemma {:induction false} ListBuilt(e: bool, b: Memory, at: Place, v: Place, items: seq<Json>, lo: nat)
    requires Built(e, b, at, v, List(items), lo)
    ensures var n := |items|;
            && ValueAt(b, v) && v.id < lo && ValueOf(b, v) == Array(PtrAt(e, n, lo), PtrAt(e, n, lo + 1), n)
            && (One(e, n) == 0 ==> Ids(e, List(items)) == 0)
            && (One(e, n) == 1 ==>
                  && Ids(e, List(items)) == 2 + Span(e, items, 0, Reach(items))
                  && NodesBlock(b, lo, n) && ValuesBlock(b, lo + 1, n) && Kids(e, b, items, 0, lo, lo + 1, lo + 2, 0))
  {
  }

  lemma {:induction false} HollowArray(b: Memory, at: Place, v: Place, items: seq<Json>)
    ensures Hollow(b, at, v, List(items)) ==> ValueAt(b, v) && NamesNothing(ArrayKind, ValueOf(b, v))
  {
  }

  lemma {:induction false} HollowObject(b: Memory, at: Place, v: Place, items: seq<Json>)
    ensures Hollow(b, at, v, Dict(items)) ==> ValueAt(b, v) && NamesNothing(ObjectKind, ValueOf(b, v))
  {
  }

  lemma {:induction false} DictBuilt(e: bool, b: Memory, at: Place, v: Place, items: seq<Json>, lo: nat)
    requires Built(e, b, at, v, Dict(items), lo)
    ensures var n := |items|;
            && ValueAt(b, v) && v.id < lo
            && ValueOf(b, v) ==
                 Object(PtrAt(e, n, lo), PtrAt(e, n, lo + 1), PtrAt(e, n, lo + 2), PtrAt(e, n, lo + 3), n)
            && (One(e, n) == 0 ==> Ids(e, Dict(items)) == 0)
            && (One(e, n) == 1 ==>
                  && NamesBlock(b, lo, n) && NodesBlock(b, lo + 1, n) && lo + 2 in b && ValuesBlock(b, lo + 3, n)
                  && Keys(e, b, items, lo, lo + 4, 0) && Kids(e, b, items, 2, lo + 1, lo + 3, lo + 4, 0))
  {
  }

  /** The key of one of the first m entries. */
  ghost predicate KeyId(e: bool, items: seq<Json>, lo: nat, m: nat, x: nat)
    requires m <= |items|
    decreases m
  {
    m > 0 && (x == lo + Span(e, items, 2, m - 1) + 1 || KeyId(e, items, lo, m - 1, x))
  }

  ghost function InnerIds(e: bool, items: seq<Json>, lo: nat, m: nat): iset<nat>
    requires m <= |items|
  {
    iset x: nat | Inner(e, items, 2, lo, m, x)
  }

  ghost function KeyIds(e: bool, items: seq<Json>, lo: nat, m: nat): iset<nat>
    requires m <= |items|
  {
    iset x: nat | KeyId(e, items, lo, m, x)
  }

  lemma {:induction false} KeyIdBounds(e: bool, items: seq<Json>, lo: nat, m: nat, x: nat)
    requires m <= |items| && KeyId(e, items, lo, m, x)
    ensures lo < x < lo + Span(e, items, 2, m)
    decreases m
  {
    if m > 1 && KeyId(e, items, lo, m - 1, x) {
      KeyIdBounds(e, items, lo, m - 1, x);
    }
  }

  /** Every block of an object's entries is part of a value, a key, or the copy of a key. */
  lemma {:induction false} Covered(e: bool, items: seq<Json>, lo: nat, m: nat, x: nat) returns (k: nat)
    requires m <= |items| && lo <= x < lo + Span(e, items, 2, m)
    ensures Inner(e, items, 2, lo, m, x) || KeyId(e, items, lo, m, x) || (k < m && x == lo + Span(e, items, 2, k))
    decreases m
  {
    if x < lo + Span(e, items, 2, m - 1) {
      k := Covered(e, items, lo, m - 1, x);
    } else {
      k := m - 1;
    }
  }

  /** Keys are not inside entries. */
  lemma {:induction false} KeyOutside(e: bool, items: seq<Json>, lo: nat, k: nat, m: nat, x: nat)
    requires k < |items| && m <= |items| && lo + Span(e, items, 2, k) <= x < lo + Span(e, items, 2, k) + 2
    ensures !Inner(e, items, 2, lo, m, x)
    decreases m
  {
    if m > 0 {
      KeyOutside(e, items, lo, k, m - 1, x);
      if k < m {
        SpanGrows(e, items, 2, k, m - 1);
        if k < m - 1 {
          SpanGrows(e, items, 2, k + 1, m - 1);
        }
      } else {
        SpanGrows(e, items, 2, m, k);
      }
    }
  }

  lemma {:induction false} KidsRemoved(e: bool, o: Memory, c: Memory, v: Place, items: seq<Json>, names: nat,
          nodes: nat, values: nat, lo: nat)
    requires ValueAt(o, v) && v.id < lo && v.id != values && names < lo && NamesBlock(o, names, |items|)
    requires ValuesBlock(o, values, |items|) && Keys(e, o, items, names, lo, 0)
    requires KidsFreed(e, o, c, items, 2, nodes, values, lo, Reach(items))
    ensures Removed(o, c, v, InnerIds(e, items, lo, Reach(items)), iset{names, values})
    ensures Keys(e, c, items, names, lo, 0) && NamesBlock(c, names, |items|)
    ensures forall x: nat :: x in o && x < lo ==> x in c
  {
    hide Reach;
    forall x: nat | x < lo ensures !Inner(e, items, 2, lo, Reach(items), x) {
      LowOutside(e, items, lo, Reach(items), x);
    }
    forall k | 0 <= k < |items| ensures Key(e, c, items, names, lo, k) {
      assert Key(e, o, items, names, lo, k);
      KeyOutside(e, items, lo, k, Reach(items), lo + Span(e, items, 2, k));
      KeyOutside(e, items, lo, k, Reach(items), lo + Span(e, items, 2, k) + 1);
    }
  }

  lemma {:induction false} LowOutside(e: bool, items: seq<Json>, lo: nat, m: nat, x: nat)
    requires m <= |items| && x < lo
    ensures !Inner(e, items, 2, lo, m, x)
  {
    if Inner(e, items, 2, lo, m, x) {
      InnerBounds(e, items, 2, lo, m, x);
    }
  }

  lemma {:induction false} KeySeen(e: bool, b: Memory, items: seq<Json>, names: nat, lo: nat, i: nat)
    requires i < |items| && Keys(e, b, items, names, lo, i) && NamesBlock(b, names, |items|) && names < lo
    ensures b[names].names[i] == (if i < Reach(items) then At(lo + Span(e, items, 2, i) + 1) else Null)
    ensures Keys(e, b, items, names, lo, i + 1)
    ensures i < Reach(items) ==>
      var id := lo + Span(e, items, 2, i) + 1;
      id in b && NamesBlock(WithName(b - {id}, names, i, Null), names, |items|)
        && Keys(e, WithName(b - {id}, names, i, Null), items, names, lo, i + 1)
  {
    hide Reach;
    assert Key(e, b, items, names, lo, i);
    if i < Reach(items) {
      var id := lo + Span(e, items, 2, i) + 1;
      var c := WithName(b - {id}, names, i, Null);
      forall k | i + 1 <= k < |items| ensures Key(e, c, items, names, lo, k) {
        assert Key(e, b, items, names, lo, k);
        SpanGrows(e, items, 2, i + 1, k);
      }
    }
  }

  /** Fields, names, lengths and values: nothing of the object is left. */
  lemma {:induction false} ObjectFreed(e: bool, o: Memory, d: Memory, v: Place, items: seq<Json>, lo: nat,
          gone: iset<nat>)
    requires ValueAt(o, v) && v.id < lo && One(e, |items|) == 1 && Keys(e, o, items, lo, lo + 4, 0)
    requires gone ==
             InnerIds(e, items, lo + 4, Reach(items)) + iset{lo + 1} + KeyIds(e, items, lo + 4, Reach(items))
             + iset{lo} + iset{lo + 2} + iset{lo + 3}
    requires Removed(o, d, v, gone, iset{lo, lo + 3})
    ensures Freed(o, d, v, lo, lo + Ids(e, Dict(items)))
  {
    hide Reach, Key, Keys, InnerIds, KeyIds, Removed;
    var hi := lo + 4 + Span(e, items, 2, Reach(items));
    forall x: nat | lo <= x < hi && x in o ensures x in gone {
      if lo + 4 <= x {
        EntryGone(e, o, items, lo, lo + 4, x);
      }
    }
    forall x: nat | x < lo || hi <= x ensures x !in gone {
      EntryKept(e, items, lo + 4, Reach(items), x);
    }
    RangeFreed(o, d, v, lo, hi, gone, iset{lo, lo + 3});
  }

  lemma {:induction false} RangeFreed(o: Memory, d: Memory, v: Place, lo: nat, hi: nat, gone: iset<nat>,
          touched: iset<nat>)
    requires ValueAt(o, v) && Removed(o, d, v, gone, touched)
    requires forall x: nat :: lo <= x < hi && x in o ==> x in gone
    requires forall x: nat :: x < lo || hi <= x ==> x !in gone
    requires forall x: nat :: x in touched ==> lo <= x < hi
    ensures Freed(o, d, v, lo, hi)
  {
  }

  lemma {:induction false} EntryGone(e: bool, o: Memory, items: seq<Json>, names: nat, lo: nat, x: nat)
    requires lo <= x < lo + Span(e, items, 2, Reach(items)) && Keys(e, o, items, names, lo, 0)
    ensures x in o ==> x in InnerIds(e, items, lo, Reach(items)) || x in KeyIds(e, items, lo, Reach(items))
  {
    hide Reach;
    var k := Covered(e, items, lo, Reach(items), x);
    if k < Reach(items) {
      assert Key(e, o, items, names, lo, k);
    }
  }

  lemma {:induction false} EntryKept(e: bool, items: seq<Json>, lo: nat, m: nat, x: nat)
    requires m <= |items| && (x < lo || lo + Span(e, items, 2, m) <= x)
    ensures x !in InnerIds(e, items, lo, m) && x !in KeyIds(e, items, lo, m)
  {
    if Inner(e, items, 2, lo, m, x) {
      InnerBounds(e, items, 2, lo, m, x);
    }
    if KeyId(e, items, lo, m, x) {
      KeyIdBounds(e, items, lo, m, x);
    }
  }

  /** A whole tree: node, value, and what was built for `j`. */
  ghost predicate Tree(e: bool, b: Memory, node: nat, j: Json) {
    NodesBlock(b, node, 1) && ValuesBlock(b, node + 1, 1)
      && Built(e, b, Place(node, 0), Place(node + 1, 0), j, node + 2)
  }

  /** How many blocks a whole tree takes. */
  function TreeIds(e: bool, j: Json): nat { 2 + Ids(e, j) }

  class Heap {
    const emptyIsNull: bool
    var blocks: Memory
    var next: nat

    ghost predicate Valid()
      reads this
    {
      Below(blocks, next)
    }

    method Calloc(zeroed: Block, n: nat) returns (p: Ptr)
      requires Valid()
      modifies this
      ensures Valid() && p == PtrAt(emptyIsNull, n, old(next)) && next == old(next) + One(emptyIsNull, n)
      ensures blocks == if p.Null? then old(blocks) else old(blocks)[old(next) := zeroed]
    {
      if emptyIsNull && n == 0 {
        return Null;
      }
      p := At(next);
      blocks := blocks[next := zeroed];
      next := next + 1;
    }

    /** Freeing anything but a live block is an error. */
    method Free(p: Ptr)
      requires Valid() && (p.At? ==> p.id in blocks)
      modifies this`blocks
      ensures Valid() && blocks == if p.Null? then old(blocks) else old(blocks) - {p.id}
    {
      if p.At? {
        blocks := blocks - {p.id};
      }
    }

    method SetNode(at: Place, node: Node)
      requires Valid() && NodeAt(blocks, at)
      modifies this`blocks
      ensures Valid() && blocks == WithNode(old(blocks), at, node)
    {
      blocks := WithNode(blocks, at, node);
    }

    method SetValue(v: Place, value: Value)
      requires Valid() && ValueAt(blocks, v)
      modifies this`blocks
      ensures Valid() && blocks == WithValue(old(blocks), v, value)
    {
      blocks := WithValue(blocks, v, value);
    }

    /** populateJSONNode. */
    method Populate(at: Place, j: Json) returns (ok: bool)
      requires Valid() && NodeAt(blocks, at) && NodeOf(blocks, at).kind == NoKind
      requires Ready(blocks, at, NodeOf(blocks, at).value, next)
      modifies this
      ensures Valid() && next == old(next) + Ids(emptyIsNull, j) && (ok <==> Good(j))
      ensures Built(emptyIsNull, blocks, at, old(NodeOf(blocks, at)).value, j, old(next))
      ensures OnlyAt(old(blocks), blocks, at, old(NodeOf(blocks, at)).value, old(next))
      decreases j, 0
    {
      var v := NodeOf(blocks, at).value;
      match j
      case Unsupported =>
        ok := false;
      case Scalar =>
        SetNode(at, Node(PlainKind, v));
        ok := true;
      case Text(n) =>
        SetNode(at, Node(BytesKind, v));
        var p := Calloc(Raw, n);
        SetValue(v, Bytes(p));
        ok := true;
      case List(items) =>
        ok := PopulateArray(at, v, items);
      case Dict(items) =>
        ok := PopulateObject(at, v, items);
    }

    /** One entry: its node gets its value, and is populated. */
    method PopulateKid(nodes: nat, values: nat, items: seq<Json>, i: nat, ghost per: nat, ghost lo: nat,
            ghost o: Memory, ghost keep: nat)
      returns (ok: bool)
      requires Valid() && i < Reach(items) && next == lo + Span(emptyIsNull, items, per, i) + per
      requires Filled(emptyIsNull, blocks, items, per, nodes, values, lo, i)
      requires OnlyIn(o, blocks, nodes, values, |items|, keep) && keep <= next
      modifies this
      ensures Valid() && next == lo + Span(emptyIsNull, items, per, i + 1) && (ok <==> Good(items[i]))
      ensures Filled(emptyIsNull, blocks, items, per, nodes, values, lo, i + 1)
              && OnlyIn(o, blocks, nodes, values, |items|, keep)
      decreases items, 1
    {
      hide Filled, OnlyIn, OnlyAt, Built, Ids, Kid, Good, Reach, WithNode, NodeOf, ValueAt;
      ghost var b := blocks;
      FillReady(emptyIsNull, b, items, per, nodes, values, lo, i);
      SetNode(Place(nodes, i), Node(NoKind, Place(values, i)));
      ok := Populate(Place(nodes, i), items[i]);
      FillStep(emptyIsNull, o, b, blocks, items, per, nodes, values, lo, i, keep);
    }

    method FillArray(nodes: nat, values: nat, items: seq<Json>) returns (ok: bool)
      requires Valid() && Filled(emptyIsNull, blocks, items, 0, nodes, values, next, 0)
      modifies this
      ensures Valid() && next == old(next) + Span(emptyIsNull, items, 0, Reach(items))
      ensures ok <==> Good(List(items))
      ensures Filled(emptyIsNull, blocks, items, 0, nodes, values, old(next), Reach(items))
      ensures OnlyIn(old(blocks), blocks, nodes, values, |items|, old(next))
      decreases items, 2
    {
      ghost var lo := next;
      var i := 0;
      hide *;
      OnlyInSelf(emptyIsNull, blocks, items, nodes, values, lo);
      SpanNone(emptyIsNull, items, 0);
      while i < |items|
        invariant i <= |items| && Valid() && forall k :: 0 <= k < i ==> Good(items[k])
        invariant next == lo + Span(emptyIsNull, items, 0, i)
        invariant Filled(emptyIsNull, blocks, items, 0, nodes, values, lo, i)
        invariant OnlyIn(old(blocks), blocks, nodes, values, |items|, lo)
      {
        ReachAt(items, i);
        ok := PopulateKid(nodes, values, items, i, 0, lo, old(blocks), lo);
        if !ok {
          Stopped(items, i);
          return false;
        }
        i := i + 1;
      }
      Finished(items);
      ok := true;
    }

    /** godror_dpiJsonArray_initialize */
    method InitializeArray(at: Place, v: Place, n: nat) returns (elements: Ptr, values: Ptr)
      requires Valid() && Ready(blocks, at, v, next)
      modifies this
      ensures Valid() && elements == PtrAt(emptyIsNull, n, old(next)) && values == PtrAt(emptyIsNull, n, old(next) + 1)
      ensures next == old(next) + 2 * One(emptyIsNull, n)
      ensures elements.At? ==> blocks == NewArray(old(blocks), at, v, n, old(next))
      ensures elements.Null? ==>
              blocks == WithValue(WithNode(old(blocks), at, Node(ArrayKind, v)), v, Array(Null, Null, 0))
    {
      SetNode(at, Node(ArrayKind, v));
      elements := Calloc(NoNodes(n), n);
      values := Calloc(NoValues(n), n);
      SetValue(v, Array(elements, values, n));
    }

    method PopulateArray(at: Place, v: Place, items: seq<Json>) returns (ok: bool)
      requires Valid() && Ready(blocks, at, v, next)
      modifies this
      ensures Valid() && next == old(next) + Ids(emptyIsNull, List(items)) && (ok <==> Good(List(items)))
      ensures Built(emptyIsNull, blocks, at, v, List(items), old(next))
      ensures OnlyAt(old(blocks), blocks, at, v, old(next))
      decreases items, 3
    {
      hide Filled, OnlyIn, OnlyAt, Built, Kid, Reach, NewArray, WithNode, WithValue;
      ghost var o, lo := blocks, next;
      var elements, values := InitializeArray(at, v, |items|);
      if elements.Null? {
        ArrayNull(o, at, v, lo);
        return true;
      }
      ArrayStart(emptyIsNull, o, at, v, items, lo);
      ok := FillArray(elements.id, values.id, items);
      ArrayDone(emptyIsNull, o, blocks, at, v, items, lo);
    }

    /** godror_dpiJsonObject_setKey, between making and freeing a copy of the key. */
    method SetKey(names: nat, i: nat)
      requires Valid() && names in blocks && blocks[names].Names? && i < |blocks[names].names|
      modifies this
      ensures Valid() && next == old(next) + 2 && blocks == WithKey(old(blocks), names, i, old(next))
    {
      var copy := Calloc(Raw, 1);
      var name := Calloc(Raw, 1);
      blocks := blocks[names := Names(blocks[names].names[i := name])];
      Free(copy);
    }

    /** One entry of an object: key, value, and the value populated. */
    method PopulateEntry(names: nat, nodes: nat, values: nat, items: seq<Json>, i: nat, ghost lo: nat, ghost o: Memory)
      returns (ok: bool)
      requires Valid() && i < Reach(items) && next == lo + Span(emptyIsNull, items, 2, i)
      requires Filled(emptyIsNull, blocks, items, 2, nodes, values, lo, i)
               && Keyed(emptyIsNull, blocks, items, names, lo, i)
      requires OnlyObject(o, blocks, names, nodes, values, lo)
      modifies this
      ensures Valid() && next == lo + Span(emptyIsNull, items, 2, i + 1) && (ok <==> Good(items[i]))
      ensures Filled(emptyIsNull, blocks, items, 2, nodes, values, lo, i + 1)
              && Keyed(emptyIsNull, blocks, items, names, lo, i + 1)
      ensures OnlyObject(o, blocks, names, nodes, values, lo)
      decreases items, 2
    {
      hide Filled, Keyed, OnlyIn, OnlyObject, Reach, Good, WithKey, Below, Span, Ids;
      ghost var b, id := blocks, next;
      SetEntryKey(names, items, i, nodes, values, lo);
      ghost var k := blocks;
      ok := PopulateKid(nodes, values, items, i, 2, lo, k, next);
      KeyStep(emptyIsNull, o, b, k, blocks, items, names, nodes, values, lo, i, id);
    }

    method SetEntryKey(names: nat, items: seq<Json>, i: nat, ghost nodes: nat, ghost values: nat, ghost lo: nat)
      requires Valid() && i < Reach(items) && next == lo + Span(emptyIsNull, items, 2, i)
      requires Filled(emptyIsNull, blocks, items, 2, nodes, values, lo, i)
               && Keyed(emptyIsNull, blocks, items, names, lo, i)
      modifies this
      ensures Valid() && next == old(next) + 2 && NamesBlock(old(blocks), names, |items|)
              && blocks == WithKey(old(blocks), names, i, old(next))
      ensures Filled(emptyIsNull, blocks, items, 2, nodes, values, lo, i)
              && OnlyIn(blocks, blocks, nodes, values, |items|, next)
    {
      hide Filled, OnlyIn, Reach, WithKey, Below, Span, Ids, Key;
      KeyKeeps(emptyIsNull, blocks, items, names, nodes, values, lo, i);
      SetKey(names, i);
    }

    method FillObject(names: nat, nodes: nat, values: nat, items: seq<Json>) returns (ok: bool)
      requires Valid() && Filled(emptyIsNull, blocks, items, 2, nodes, values, next, 0)
               && Keyed(emptyIsNull, blocks, items, names, next, 0)
      modifies this
      ensures Valid() && next == old(next) + Span(emptyIsNull, items, 2, Reach(items))
      ensures ok <==> Good(Dict(items))
      ensures Filled(emptyIsNull, blocks, items, 2, nodes, values, old(next), Reach(items))
      ensures Keyed(emptyIsNull, blocks, items, names, old(next), Reach(items))
      ensures OnlyObject(old(blocks), blocks, names, nodes, values, old(next))
      decreases items, 3
    {
      ghost var lo := next;
      var i := 0;
      hide *;
      OnlyObjectSelf(blocks, names, nodes, values, lo);
      SpanNone(emptyIsNull, items, 2);
      while i < |items|
        invariant i <= |items| && Valid() && forall k :: 0 <= k < i ==> Good(items[k])
        invariant next == lo + Span(emptyIsNull, items, 2, i)
        invariant Filled(emptyIsNull, blocks, items, 2, nodes, values, lo, i)
        invariant Keyed(emptyIsNull, blocks, items, names, lo, i)
        invariant OnlyObject(old(blocks), blocks, names, nodes, values, lo)
      {
        ReachAt(items, i);
        ok := PopulateEntry(names, nodes, values, items, i, lo, old(blocks));
        if !ok {
          Stopped(items, i);
          return false;
        }
        i := i + 1;
      }
      Finished(items);
      ok := true;
    }

    /** godror_dpiJsonObject_initialize */
    method InitializeObject(at: Place, v: Place, n: nat) returns (names: Ptr, fields: Ptr, values: Ptr)
      requires Valid() && Ready(blocks, at, v, next)
      modifies this
      ensures Valid() && next == old(next) + 4 * One(emptyIsNull, n) && names == PtrAt(emptyIsNull, n, old(next))
      ensures fields == PtrAt(emptyIsNull, n, old(next) + 1) && values == PtrAt(emptyIsNull, n, old(next) + 3)
      ensures names.At? ==> blocks == NewObject(old(blocks), at, v, n, old(next))
      ensures names.Null? ==>
              blocks == WithValue(WithNode(old(blocks), at, Node(ObjectKind, v)), v, Object(Null, Null, Null, Null, 0))
    {
      SetNode(at, Node(ObjectKind, v));
      names := Calloc(NoNames(n), n);
      fields := Calloc(NoNodes(n), n);
      var lengths := Calloc(Raw, n);
      values := Calloc(NoValues(n), n);
      SetValue(v, Object(names, fields, lengths, values, n));
    }

    method PopulateObject(at: Place, v: Place, items: seq<Json>) returns (ok: bool)
      requires Valid() && Ready(blocks, at, v, next)
      modifies this
      ensures Valid() && next == old(next) + Ids(emptyIsNull, Dict(items)) && (ok <==> Good(Dict(items)))
      ensures Built(emptyIsNull, blocks, at, v, Dict(items), old(next))
      ensures OnlyAt(old(blocks), blocks, at, v, old(next))
      decreases items, 4
    {
      hide Filled, Keyed, OnlyObject, OnlyAt, Built, Kid, Reach, NewObject, WithNode, WithValue;
      ghost var o, lo := blocks, next;
      var names, fields, values := InitializeObject(at, v, |items|);
      if names.Null? {
        ObjectNull(o, at, v, lo);
        return true;
      }
      ObjectStart(emptyIsNull, o, at, v, items, lo);
      ok := FillObject(names.id, fields.id, values.id, items);
      ObjectDone(emptyIsNull, o, blocks, at, v, items, lo);
    }

    /** godror_dpiJsonNodeFree: what was built is gone, and the value that is
        left names no block, so that freeing the node again changes nothing. */
    method FreeNode(at: Place, ghost v: Place, ghost j: Json, ghost lo: nat)
      requires Valid() && (Built(emptyIsNull, blocks, at, v, j, lo) || Hollow(blocks, at, v, j))
      modifies this`blocks
      ensures Valid() && Hollow(blocks, at, v, j)
      ensures old(Built(emptyIsNull, blocks, at, v, j, lo)) ==>
              Freed(old(blocks), blocks, v, lo, lo + Ids(emptyIsNull, j))
      ensures old(Hollow(blocks, at, v, j)) ==> blocks == old(blocks)
      decreases j, 0
    {
      var node := NodeOf(blocks, at);
      match node.kind
      case NoKind =>
      case PlainKind =>
      case BytesKind =>
        var ptr := ValueOf(blocks, node.value).ptr;
        if ptr.At? {
          Free(ptr);
          SetValue(node.value, Bytes(Null));
        }
      case ArrayKind =>
        FreeArray(node.value, at, j.items, lo);
      case ObjectKind =>
        FreeObject(node.value, at, j.items, lo);
    }

    method FreeArray(v: Place, ghost at: Place, ghost items: seq<Json>, ghost lo: nat)
      requires Valid() && (Built(emptyIsNull, blocks, at, v, List(items), lo) || Hollow(blocks, at, v, List(items)))
      modifies this`blocks
      ensures Valid() && Hollow(blocks, at, v, List(items))
      ensures old(Built(emptyIsNull, blocks, at, v, List(items), lo)) ==>
                Freed(old(blocks), blocks, v, lo, lo + Ids(emptyIsNull, List(items)))
      ensures old(Hollow(blocks, at, v, List(items))) ==> blocks == old(blocks)
      decreases items, 3
    {
      ghost var built := Built(emptyIsNull, blocks, at, v, List(items), lo);
      hide Built, Ids, Reach, Kids, KidsFreed, Removed, Freed, Range, Hollow, NodeOf;
      if built {
        ListBuilt(emptyIsNull, blocks, at, v, items, lo);
        NothingFreed(blocks, v, lo);
      }
      HollowArray(blocks, at, v, items);
      ghost var o, hi := blocks, lo + Ids(emptyIsNull, List(items));
      var arr := ValueOf(blocks, v);
      if arr.elements.At? {
        FreeElements(arr.elements.id, v, arr.count, items, lo);
        Drop(arr.elements, v, arr.(elements := Null), o, Range(lo + 2, hi), iset{lo + 1});
      }
      if arr.elementValues.At? {
        Drop(arr.elementValues, v, arr.(elements := Null, elementValues := Null), o, Range(lo + 2, hi) + iset{lo},
          iset{lo + 1});
        ArrayFreed(o, blocks, v, lo, hi);
      }
      if built {
        HollowNow(emptyIsNull, o, blocks, at, v, List(items), lo, hi);
      }
    }

    method FreeElements(elements: nat, v: Place, n: nat, ghost items: seq<Json>, ghost lo: nat)
      requires Valid() && elements == lo && n == |items| && ValueAt(blocks, v) && v.id < lo
      requires NodesBlock(blocks, lo, n) && ValuesBlock(blocks, lo + 1, n)
               && Kids(emptyIsNull, blocks, items, 0, lo, lo + 1, lo + 2, 0)
      modifies this`blocks
      ensures Valid()
              && Removed(old(blocks), blocks, v, Range(lo + 2, lo + 2 + Span(emptyIsNull, items, 0, Reach(items))),
                   iset{lo + 1})
      ensures lo in blocks && lo + 1 in blocks
      decreases items, 2, 1
    {
      hide Reach, Kids, KidsFreed, Removed, Range;
      FreeKids(elements, n, items, 0, lo + 1, lo + 2);
      ElementsRemoved(emptyIsNull, old(blocks), blocks, v, items, lo, lo + 1, lo + 2);
    }

    /** One entry, visited only if it has a value. */
    method FreeKid(nodes: nat, i: nat, ghost items: seq<Json>, ghost per: nat, ghost values: nat, ghost lo: nat,
            ghost o: Memory)
      requires Valid() && i < |items| && nodes < lo && values < lo
               && Kids(emptyIsNull, blocks, items, per, nodes, values, lo, i)
      requires KidsFreed(emptyIsNull, o, blocks, items, per, nodes, values, lo, Least(i, Reach(items)))
      modifies this`blocks
      ensures Valid() && Kids(emptyIsNull, blocks, items, per, nodes, values, lo, i + 1)
      ensures KidsFreed(emptyIsNull, o, blocks, items, per, nodes, values, lo, Least(i + 1, Reach(items)))
      decreases items, 1
    {
      hide Kids, Reach, Built, Freed, KidsFreed, Ids;
      KidSeen(emptyIsNull, blocks, items, per, nodes, values, lo, i);
      if blocks[nodes].nodes[i].value != Nowhere {
        ghost var b := blocks;
        FreeNode(Place(nodes, i), Place(values, i), items[i], lo + Span(emptyIsNull, items, per, i) + per);
        FreeStep(emptyIsNull, o, b, blocks, items, per, nodes, values, lo, i);
      }
    }

    /** The loop over elements or fields. */
    method FreeKids(nodes: nat, n: nat, ghost items: seq<Json>, ghost per: nat, ghost values: nat, ghost lo: nat)
      requires Valid() && n == |items| && nodes < lo && values < lo
      requires NodesBlock(blocks, nodes, n) && ValuesBlock(blocks, values, n)
      requires Kids(emptyIsNull, blocks, items, per, nodes, values, lo, 0)
      modifies this`blocks
      ensures Valid() && KidsFreed(emptyIsNull, old(blocks), blocks, items, per, nodes, values, lo, Reach(items))
      decreases items, 2, 0
    {
      var i := 0;
      assert KidsFreed(emptyIsNull, blocks, blocks, items, per, nodes, values, lo, 0);
      hide Kids, Reach, KidsFreed;
      while i < n
        invariant i <= n && Valid()
        invariant KidsFreed(emptyIsNull, old(blocks), blocks, items, per, nodes, values, lo, Least(i, Reach(items)))
        invariant Kids(emptyIsNull, blocks, items, per, nodes, values, lo, i)
      {
        FreeKid(nodes, i, items, per, values, lo, old(blocks));
        i := i + 1;
      }
    }

    /** One key. */
    method FreeName(names: nat, i: nat, ghost items: seq<Json>, ghost lo: nat, ghost o: Memory, ghost v: Place,
            ghost gone: iset<nat>, ghost touched: iset<nat>)
      requires Valid() && i < |items| && NamesBlock(blocks, names, |items|) && names < lo
               && Keys(emptyIsNull, blocks, items, names, lo, i)
      requires ValueAt(o, v) && v.id < lo && v.id != names && names in touched
      requires Removed(o, blocks, v, gone + KeyIds(emptyIsNull, items, lo, Least(i, Reach(items))), touched)
      modifies this`blocks
      ensures Valid() && NamesBlock(blocks, names, |items|) && Keys(emptyIsNull, blocks, items, names, lo, i + 1)
      ensures Removed(o, blocks, v, gone + KeyIds(emptyIsNull, items, lo, Least(i + 1, Reach(items))), touched)
      ensures forall x: nat :: x in old(blocks) && x < lo ==> x in blocks
    {
      hide Reach, Keys, Removed, Ids;
      KeySeen(emptyIsNull, blocks, items, names, lo, i);
      var p := blocks[names].names[i];
      if p.At? {
        ghost var b, before := blocks, gone + KeyIds(emptyIsNull, items, lo, i);
        RemoveOne(o, b, v, before, touched, p.id);
        Free(p);
        TouchName(o, blocks, v, before + iset{p.id}, touched, names, i, Null);
        blocks := WithName(blocks, names, i, Null);
        assert before + iset{p.id} == gone + KeyIds(emptyIsNull, items, lo, i + 1);
      }
    }

    /** The loop over the names. */
    method FreeNames(names: nat, n: nat, ghost items: seq<Json>, ghost lo: nat, ghost o: Memory, ghost v: Place,
            ghost gone: iset<nat>, ghost touched: iset<nat>)
      requires Valid() && n == |items| && NamesBlock(blocks, names, n) && names < lo
               && Keys(emptyIsNull, blocks, items, names, lo, 0)
      requires ValueAt(o, v) && v.id < lo && v.id != names && names in touched && Removed(o, blocks, v, gone, touched)
      modifies this`blocks
      ensures Valid() && forall x: nat :: x in old(blocks) && x < lo ==> x in blocks
      ensures Removed(o, blocks, v, gone + KeyIds(emptyIsNull, items, lo, Reach(items)), touched)
    {
      var i := 0;
      assert gone + KeyIds(emptyIsNull, items, lo, 0) == gone;
      hide Reach, Keys, Removed, KeyIds;
      while i < n
        invariant i <= n && Valid() && NamesBlock(blocks, names, n) && Keys(emptyIsNull, blocks, items, names, lo, i)
        invariant Removed(o, blocks, v, gone + KeyIds(emptyIsNull, items, lo, Least(i, Reach(items))), touched)
        invariant forall x: nat :: x in old(blocks) && x < lo ==> x in blocks
      {
        FreeName(names, i, items, lo, o, v, gone, touched);
        i := i + 1;
      }
    }

    /** Frees a block and clears the field that names it in the object. */
    method Drop(p: Ptr, v: Place, object': Value, ghost o: Memory, ghost gone: iset<nat>, ghost touched: iset<nat>)
      requires Valid() && p.At? && p.id in blocks && ValueAt(o, v) && p.id != v.id
               && Removed(o, blocks, v, gone, touched)
      modifies this`blocks
      ensures Valid() && Removed(o, blocks, v, gone + iset{p.id}, touched)
      ensures ValueAt(blocks, v) && ValueOf(blocks, v) == object'
      ensures forall x :: x in old(blocks) && x != p.id && x != v.id ==> x in blocks && blocks[x] == old(blocks)[x]
      ensures forall x :: x in blocks ==> x in old(blocks) && x != p.id
    {
      RemoveOne(o, blocks, v, gone, touched, p.id);
      Free(p);
      SetOne(o, blocks, v, gone + iset{p.id}, touched, object');
      hide Removed;
      SetValue(v, object');
    }

    method FreeObject(v: Place, ghost at: Place, ghost items: seq<Json>, ghost lo: nat)
      requires Valid() && (Built(emptyIsNull, blocks, at, v, Dict(items), lo) || Hollow(blocks, at, v, Dict(items)))
      modifies this`blocks
      ensures Valid() && Hollow(blocks, at, v, Dict(items))
      ensures old(Built(emptyIsNull, blocks, at, v, Dict(items), lo)) ==>
                Freed(old(blocks), blocks, v, lo, lo + Ids(emptyIsNull, Dict(items)))
      ensures old(Hollow(blocks, at, v, Dict(items))) ==> blocks == old(blocks)
      decreases items, 3
    {
      ghost var built := Built(emptyIsNull, blocks, at, v, Dict(items), lo);
      hide Built, Ids, Reach, Kids, Kid, Keys, KidsFreed, Removed, Freed, InnerIds, Hollow, NodeOf;
      if built {
        DictBuilt(emptyIsNull, blocks, at, v, items, lo);
        NothingFreed(blocks, v, lo);
      }
      HollowObject(blocks, at, v, items);
      ghost var o := blocks;
      var obj := ValueOf(blocks, v);
      ghost var full := obj.fields.At?;
      if obj.fields.At? {
        FreeFields(v, obj, items, lo);
        obj := obj.(fields := Null);
      }
      FreeOthers(v, obj, items, lo, o, full);
      if built {
        HollowNow(emptyIsNull, o, blocks, at, v, Dict(items), lo, lo + Ids(emptyIsNull, Dict(items)));
      }
    }

    method FreeFields(v: Place, obj: Value, ghost items: seq<Json>, ghost lo: nat)
      requires Valid() && ValueAt(blocks, v) && v.id < lo && obj.Object? && obj.fields == At(lo + 1)
               && obj.count == |items|
      requires NamesBlock(blocks, lo, |items|) && NodesBlock(blocks, lo + 1, |items|) && lo + 2 in blocks
               && ValuesBlock(blocks, lo + 3, |items|)
      requires Keys(emptyIsNull, blocks, items, lo, lo + 4, 0)
               && Kids(emptyIsNull, blocks, items, 2, lo + 1, lo + 3, lo + 4, 0)
      modifies this`blocks
      ensures Valid() && NamesBlock(blocks, lo, |items|) && lo + 2 in blocks && lo + 3 in blocks
              && Keys(emptyIsNull, blocks, items, lo, lo + 4, 0)
      ensures Removed(old(blocks), blocks, v, InnerIds(emptyIsNull, items, lo + 4, Reach(items)) + iset{lo + 1},
              iset{lo, lo + 3})
      decreases items, 2, 1
    {
      hide Reach, Kids, Kid, Keys, KidsFreed, Removed, InnerIds;
      FreeKids(obj.fields.id, obj.count, items, 2, lo + 3, lo + 4);
      KidsRemoved(emptyIsNull, old(blocks), blocks, v, items, lo, lo + 1, lo + 3, lo + 4);
      ghost var b := blocks;
      Drop(obj.fields, v, obj.(fields := Null), old(blocks), InnerIds(emptyIsNull, items, lo + 4, Reach(items)),
        iset{lo, lo + 3});
      FrameKeys(emptyIsNull, b, blocks, items, lo, lo + 4);
    }

    /** Names, lengths and values; they are there together with the fields or not at all. */
    method FreeOthers(v: Place, obj: Value, ghost items: seq<Json>, ghost lo: nat, ghost o: Memory, ghost full: bool)
      requires Valid() && ValueAt(o, v)
      requires full ==> v.id < lo && One(emptyIsNull, |items|) == 1 && Keys(emptyIsNull, o, items, lo, lo + 4, 0)
      requires full ==> obj == Object(At(lo), Null, At(lo + 2), At(lo + 3), |items|)
      requires full ==>
               NamesBlock(blocks, lo, |items|) && lo + 2 in blocks && lo + 3 in blocks
               && Keys(emptyIsNull, blocks, items, lo, lo + 4, 0)
      requires full ==>
               Removed(o, blocks, v, InnerIds(emptyIsNull, items, lo + 4, Reach(items)) + iset{lo + 1},
               iset{lo, lo + 3})
      requires !full ==> ValueAt(blocks, v) && ValueOf(blocks, v) == obj && NamesNothing(ObjectKind, obj)
      modifies this`blocks
      ensures Valid() && ValueAt(blocks, v) && NamesNothing(ObjectKind, ValueOf(blocks, v))
      ensures full ==> Freed(o, blocks, v, lo, lo + Ids(emptyIsNull, Dict(items)))
      ensures !full ==> blocks == old(blocks)
    {
      hide Reach, Keys, Removed, Freed, InnerIds, KeyIds;
      ghost var gone, touched := InnerIds(emptyIsNull, items, lo + 4, Reach(items)) + iset{lo + 1}, iset{lo, lo + 3};
      var rest := obj;
      if rest.names.At? {
        FreeNames(rest.names.id, rest.count, items, lo + 4, o, v, gone, touched);
        gone := gone + KeyIds(emptyIsNull, items, lo + 4, Reach(items));
        Drop(rest.names, v, rest.(names := Null), o, gone, touched);
        rest := rest.(names := Null);
      }
      if rest.lengths.At? {
        Drop(rest.lengths, v, rest.(lengths := Null), o, gone + iset{lo}, touched);
        rest := rest.(lengths := Null);
      }
      if rest.fieldValues.At? {
        Drop(rest.fieldValues, v, rest.(fieldValues := Null), o, gone + iset{lo} + iset{lo + 2}, touched);
        ObjectFreed(emptyIsNull, o, blocks, v, items, lo, gone + iset{lo} + iset{lo + 2} + iset{lo + 3});
      }
    }

    /** Freeing a node twice is freeing it once. */
    method FreeNodeTwice(at: Place, ghost v: Place, ghost j: Json, ghost lo: nat)
      requires Valid() && Built(emptyIsNull, blocks, at, v, j, lo)
      modifies this`blocks
      ensures Valid() && Hollow(blocks, at, v, j) && Freed(old(blocks), blocks, v, lo, lo + Ids(emptyIsNull, j))
    {
      FreeNode(at, v, j, lo);
      FreeNode(at, v, j, lo);
    }

    /** godror_dpiJsonfreeMem: the blocks of the tree are gone, and no others. */
    method FreeMem(node: nat, ghost j: Json)
      requires Valid() && Tree(emptyIsNull, blocks, node, j)
      modifies this`blocks
      ensures Valid() && blocks == map x | x in old(blocks)
              && !(node <= x < node + TreeIds(emptyIsNull, j)) :: old(blocks)[x]
    {
      hide Built, Ids;
      var v := NodeOf(blocks, Place(node, 0)).value;
      assert v == Place(node + 1, 0) by {
        BuiltReady(emptyIsNull, blocks, Place(node, 0), Place(node + 1, 0), j, node + 2);
      }
      FreeNode(Place(node, 0), v, j, node + 2);
      Free(At(v.id));
      Free(At(node));
    }

    /** allocdpiJSONNode: a tree if every part of the value is supported, and
        otherwise nothing. */
    method Alloc(j: Json) returns (ok: bool, node: nat)
      requires Valid()
      modifies this
      ensures Valid() && (ok <==> Good(j))
      ensures !ok ==> blocks == old(blocks)
      ensures ok ==> node == old(next) && Tree(emptyIsNull, blocks, node, j) && next == node + TreeIds(emptyIsNull, j)
      ensures ok ==> forall x: nat :: x < node ==>
              (x in blocks <==> x in old(blocks)) && (x in blocks ==> blocks[x] == old(blocks)[x])
    {
      hide Built, Ids, Good;
      var p := Calloc(NoNodes(1), 1);
      var value := Calloc(NoValues(1), 1);
      node := p.id;
      SetNode(Place(node, 0), Node(NoKind, Place(value.id, 0)));
      ok := Populate(Place(node, 0), j);
      if !ok {
        FreeMem(node, j);
        assert blocks == old(blocks);
      }
    }

    /** Allocating and freeing leaves the memory exactly as it was. */
    method AllocThenFree(j: Json) returns (ok: bool)
      requires Valid()
      modifies this
      ensures Valid() && blocks == old(blocks) && (ok <==> Good(j))
    {
      hide Built, Ids, Good;
      var node;
      ok, node := Alloc(j);
      if ok {
        FreeMem(node, j);
        assert blocks == old(blocks);
      }
    }
  }
}
