/** The AST-to-JSON converter behind the two AST endpoints (`model_to_dict`).

    A parsed model is a graph of objects, so it is modelled as a heap: a map from object
    identities to objects, each with a class name and its attributes in dictionary order.
    Attribute values are `None`, primitives, lists, references to objects, or values of
    some other type (converted with `str`). Conversion threads one `visited` set of object
    identities through the whole walk, siblings included, exactly as the shared Python set
    does; it is returned next to the JSON value.
 */
module AstJson {
  import Seqs

  type NodeId = nat

  /** The primitive values `model_to_dict` returns unchanged; a float is kept as its text. */
  datatype Prim = PStr(s: string) | PInt(i: int) | PBool(b: bool) | PFloat(text: string)

  datatype Value =
    | VNone
    | VPrim(p: Prim)
    | VList(items: seq<Value>)
    | VRef(id: NodeId)
    | VOther(text: string)

  /** An object with a `__dict__`: its class name and its attributes in insertion order. */
  datatype Obj = Obj(className: string, attrs: seq<(string, Value)>)

  type Heap = map<NodeId, Obj>

  datatype Json =
    | JNull
    | JPrim(p: Prim)
    | JArray(items: seq<Json>)
    | JObject(members: seq<(string, Json)>)

  /** Every reference inside a value points at an object of the heap. */
  predicate RefsIn(heap: Heap, v: Value)
    decreases v
  {
    match v
    case VRef(id) => id in heap
    case VList(items) => forall i :: 0 <= i < |items| ==> RefsIn(heap, items[i])
    case _ => true
  }

  /** The heap has no dangling references: the objects of a Python model always exist. */
  predicate Closed(heap: Heap) {
    forall id, k :: id in heap && 0 <= k < |heap[id].attrs| ==> RefsIn(heap, heap[id].attrs[k].1)
  }

  /** Attributes the converter leaves out: private ones and the parent back-links. */
  predicate Skipped(name: string) {
    (|name| > 0 && name[0] == '_') || name == "parent" || name == "parent_obj" || name == "parent_ref"
  }

  predicate Kept(name: string) {
    !Skipped(name)
  }

  function AttrNames(attrs: seq<(string, Value)>): seq<string> {
    if |attrs| == 0 then [] else [attrs[0].0] + AttrNames(attrs[1..])
  }

  function MemberNames(members: seq<(string, Json)>): seq<string> {
    if |members| == 0 then [] else [members[0].0] + MemberNames(members[1..])
  }

  const DefaultMaxDepth: int := 20

  /** The marker returned in place of a value nested deeper than the limit. */
  function MaxDepthMarker(): Json {
    JObject([("__type__", JPrim(PStr("MaxDepthReached")))])
  }

  /** The marker returned for an object met a second time. */
  function CircularMarker(className: string): Json {
    JObject([("__type__", JPrim(PStr(className))), ("__note__", JPrim(PStr("circular_reference")))])
  }

  /** How many more levels may be opened at `depth`. */
  function Budget(maxDepth: int, depth: int): nat {
    if depth <= maxDepth then maxDepth - depth + 1 else 0
  }

  /** Every path from the root of `j` passes through at most `h` arrays or objects. */
  predicate Bounded(j: Json, h: int)
    decreases j
  {
    match j
    case JNull => true
    case JPrim(_) => true
    case JArray(items) => h >= 1 && forall i :: 0 <= i < |items| ==> Bounded(items[i], h - 1)
    case JObject(members) => h >= 1 && forall i :: 0 <= i < |members| ==> Bounded(members[i].1, h - 1)
  }

  /** `model_to_dict(obj, max_depth, current_depth, visited)`. In order: `None` is null at any
      depth; past the depth limit everything else is the depth marker; primitives are
      returned as they are; lists are converted item by item one level deeper; an object
      already visited is the circular marker; any other object is marked visited and becomes
      its class name followed by its kept attributes, converted one level deeper; anything
      else is its text. */
  function ToDict(heap: Heap, v: Value, maxDepth: int, depth: int, visited: set<NodeId>): (r: (Json, set<NodeId>))
    requires Closed(heap) && RefsIn(heap, v)
    ensures visited <= r.1 <= visited + heap.Keys
    ensures Bounded(r.0, Budget(maxDepth, depth) + 1)
    ensures v.VNone? ==> r == (JNull, visited)
    ensures !v.VNone? && depth > maxDepth ==> r == (MaxDepthMarker(), visited)
    ensures depth <= maxDepth && v.VPrim? ==> r == (JPrim(v.p), visited)
    ensures depth <= maxDepth && v.VList? ==> r.0.JArray? && |r.0.items| == |v.items|
    ensures depth <= maxDepth && v.VRef? && v.id in visited ==> r == (CircularMarker(heap[v.id].className), visited)
    ensures depth <= maxDepth && v.VRef? && v.id !in visited ==>
              && v.id in r.1
              && r.0.JObject? && |r.0.members| >= 1
              && r.0.members[0] == ("__type__", JPrim(PStr(heap[v.id].className)))
              && MemberNames(r.0.members[1..]) == Seqs.Filter(AttrNames(heap[v.id].attrs), Kept)
    ensures depth <= maxDepth && v.VOther? ==> r == (JPrim(PStr(v.text)), visited)
    decreases Budget(maxDepth, depth), 2, 0
  {
    if v.VNone? then (JNull, visited)
    else if depth > maxDepth then (MaxDepthMarker(), visited)
    else
      match v
      case VPrim(p) => (JPrim(p), visited)
      case VList(items) =>
        var converted := ListToDict(heap, items, maxDepth, depth + 1, visited);
        (JArray(converted.0), converted.1)
      case VRef(id) => ObjectToDict(heap, id, maxDepth, depth, visited)
      case VOther(text) => (JPrim(PStr(text)), visited)
  }

  /** An object at an allowed depth: the circular marker if it was visited before, otherwise
      (after marking it visited) its class name followed by its kept attributes. */
  function ObjectToDict(heap: Heap, id: NodeId, maxDepth: int, depth: int, visited: set<NodeId>): (r: (Json, set<NodeId>))
    requires Closed(heap) && id in heap && depth <= maxDepth
    ensures visited <= r.1 <= visited + heap.Keys
    ensures Bounded(r.0, Budget(maxDepth, depth) + 1)
    ensures id in visited ==> r == (CircularMarker(heap[id].className), visited)
    ensures id !in visited ==>
              && id in r.1
              && r.0.JObject? && |r.0.members| >= 1
              && r.0.members[0] == ("__type__", JPrim(PStr(heap[id].className)))
              && MemberNames(r.0.members[1..]) == Seqs.Filter(AttrNames(heap[id].attrs), Kept)
    decreases Budget(maxDepth, depth), 1, 0
  {
    var obj := heap[id];
    if id in visited then (CircularMarker(obj.className), visited)
    else
      var converted := AttrsToDict(heap, obj.attrs, maxDepth, depth + 1, visited + {id});
      var typeTag := ("__type__", JPrim(PStr(obj.className)));
      assert ([typeTag] + converted.0)[1..] == converted.0;
      (JObject([typeTag] + converted.0), converted.1)
  }

  /** The items of a list, left to right, each seeing the objects visited by those before it. */
  function ListToDict(heap: Heap, items: seq<Value>, maxDepth: int, depth: int, visited: set<NodeId>): (r: (seq<Json>, set<NodeId>))
    requires Closed(heap) && forall i :: 0 <= i < |items| ==> RefsIn(heap, items[i])
    ensures |r.0| == |items|
    ensures visited <= r.1 <= visited + heap.Keys
    ensures forall i :: 0 <= i < |r.0| ==> Bounded(r.0[i], Budget(maxDepth, depth) + 1)
    decreases Budget(maxDepth, depth), 3, |items|
  {
    if |items| == 0 then ([], visited)
    else
      var first := ToDict(heap, items[0], maxDepth, depth, visited);
      var rest := ListToDict(heap, items[1..], maxDepth, depth, first.1);
      ([first.0] + rest.0, rest.1)
  }

  /** The attributes of an object in order: skipped names are dropped, the others are
      converted, each seeing the objects visited by those before it. */
  function AttrsToDict(heap: Heap, attrs: seq<(string, Value)>, maxDepth: int, depth: int, visited: set<NodeId>): (r: (seq<(string, Json)>, set<NodeId>))
    requires Closed(heap) && forall i :: 0 <= i < |attrs| ==> RefsIn(heap, attrs[i].1)
    ensures MemberNames(r.0) == Seqs.Filter(AttrNames(attrs), Kept)
    ensures visited <= r.1 <= visited + heap.Keys
    ensures forall i :: 0 <= i < |r.0| ==> Bounded(r.0[i].1, Budget(maxDepth, depth) + 1)
    decreases Budget(maxDepth, depth), 3, |attrs|
  {
    if |attrs| == 0 then ([], visited)
    else
      assert AttrNames(attrs)[1..] == AttrNames(attrs[1..]);
      var rest0 := attrs[1..];
      if Skipped(attrs[0].0) then AttrsToDict(heap, rest0, maxDepth, depth, visited)
      else
        var first := ToDict(heap, attrs[0].1, maxDepth, depth, visited);
        var rest := AttrsToDict(heap, rest0, maxDepth, depth, first.1);
        var members := [(attrs[0].0, first.0)] + rest.0;
        assert members[1..] == rest.0;
        (members, rest.1)
  }

  /** Lists map element-wise: item `i` is item `i` of the input converted at the same depth,
      seeing exactly the objects visited by the conversion of the items before it. */
  lemma {:induction false} ListToDictItems(heap: Heap, items: seq<Value>, maxDepth: int, depth: int, visited: set<NodeId>)
    requires Closed(heap) && forall i :: 0 <= i < |items| ==> RefsIn(heap, items[i])
    ensures forall i :: 0 <= i < |items| ==>
              ListToDict(heap, items, maxDepth, depth, visited).0[i]
              == ToDict(heap, items[i], maxDepth, depth, ListToDict(heap, items[..i], maxDepth, depth, visited).1).0
    decreases |items|
  {
    if |items| > 0 {
      var r := ListToDict(heap, items, maxDepth, depth, visited);
      var first := ToDict(heap, items[0], maxDepth, depth, visited);
      var tail := items[1..];
      ListToDictItems(heap, tail, maxDepth, depth, first.1);
      forall i | 0 <= i < |items|
        ensures r.0[i] == ToDict(heap, items[i], maxDepth, depth, ListToDict(heap, items[..i], maxDepth, depth, visited).1).0
      {
        var prefix := items[..i];
        if i == 0 {
          assert prefix == [];
        } else {
          assert prefix[0] == items[0];
          assert prefix[1..] == tail[..i - 1];
          assert items[i] == tail[i - 1];
        }
      }
    }
  }

  /** A list within the depth limit converts element-wise one level deeper. */
  lemma ToDictListItems(heap: Heap, items: seq<Value>, maxDepth: int, depth: int, visited: set<NodeId>)
    requires Closed(heap) && RefsIn(heap, VList(items)) && depth <= maxDepth
    ensures var r := ToDict(heap, VList(items), maxDepth, depth, visited).0;
            && r.JArray? && |r.items| == |items|
            && forall i :: 0 <= i < |items| ==>
                 r.items[i] == ToDict(heap, items[i], maxDepth, depth + 1,
                                      ListToDict(heap, items[..i], maxDepth, depth + 1, visited).1).0
  {
    ListToDictItems(heap, items, maxDepth, depth + 1, visited);
  }

  /** The values of the kept attributes, in order. */
  function KeptValues(heap: Heap, attrs: seq<(string, Value)>): (r: seq<Value>)
    requires forall i :: 0 <= i < |attrs| ==> RefsIn(heap, attrs[i].1)
    ensures |r| <= |attrs|
    ensures forall i :: 0 <= i < |r| ==> RefsIn(heap, r[i])
  {
    if |attrs| == 0 then []
    else if Skipped(attrs[0].0) then KeptValues(heap, attrs[1..])
    else [attrs[0].1] + KeptValues(heap, attrs[1..])
  }

  /** The converted values of a list of members, in order. */
  function MemberValues(members: seq<(string, Json)>): (r: seq<Json>)
    ensures |r| == |members|
    ensures forall k :: 0 <= k < |r| ==> r[k] == members[k].1
  {
    if |members| == 0 then [] else [members[0].1] + MemberValues(members[1..])
  }

  /** Converting the attributes is converting the list of kept values: the same converted
      values in the same order, and the same objects visited. */
  lemma {:induction false} AttrsAsList(heap: Heap, attrs: seq<(string, Value)>, maxDepth: int, depth: int, visited: set<NodeId>)
    requires Closed(heap) && forall i :: 0 <= i < |attrs| ==> RefsIn(heap, attrs[i].1)
    ensures var r := AttrsToDict(heap, attrs, maxDepth, depth, visited);
            var l := ListToDict(heap, KeptValues(heap, attrs), maxDepth, depth, visited);
            MemberValues(r.0) == l.0 && r.1 == l.1
    decreases |attrs|
  {
    if |attrs| > 0 {
      var tail := attrs[1..];
      if Skipped(attrs[0].0) {
        AttrsAsList(heap, tail, maxDepth, depth, visited);
      } else {
        var head := ToDict(heap, attrs[0].1, maxDepth, depth, visited);
        AttrsAsList(heap, tail, maxDepth, depth, head.1);
        var kept := KeptValues(heap, attrs);
        assert kept[0] == attrs[0].1 && kept[1..] == KeptValues(heap, tail);
        var rest := AttrsToDict(heap, tail, maxDepth, depth, head.1);
        assert AttrsToDict(heap, attrs, maxDepth, depth, visited).0 == [(attrs[0].0, head.0)] + rest.0;
      }
    }
  }

  /** Attributes map member-wise: member `k` holds the `k`-th kept attribute's name and its
      value converted at the same depth, seeing exactly the objects visited by the kept
      attributes before it. */
  lemma AttrsToDictMembers(heap: Heap, attrs: seq<(string, Value)>, maxDepth: int, depth: int, visited: set<NodeId>)
    requires Closed(heap) && forall i :: 0 <= i < |attrs| ==> RefsIn(heap, attrs[i].1)
    ensures var r := AttrsToDict(heap, attrs, maxDepth, depth, visited).0;
            var kept := KeptValues(heap, attrs);
            && |r| == |kept|
            && MemberNames(r) == Seqs.Filter(AttrNames(attrs), Kept)
            && forall k :: 0 <= k < |r| ==>
                 r[k].1 == ToDict(heap, kept[k], maxDepth, depth, ListToDict(heap, kept[..k], maxDepth, depth, visited).1).0
  {
    AttrsAsList(heap, attrs, maxDepth, depth, visited);
    ListToDictItems(heap, KeptValues(heap, attrs), maxDepth, depth, visited);
  }

  /** A new object within the depth limit: after the class name, member `k` holds the
      `k`-th kept attribute's name and its value converted one level deeper, with the object
      itself and everything the kept attributes before it visited already marked. */
  lemma ObjectToDictMembers(heap: Heap, id: NodeId, maxDepth: int, depth: int, visited: set<NodeId>)
    requires Closed(heap) && id in heap && depth <= maxDepth && id !in visited
    ensures var members := ObjectToDict(heap, id, maxDepth, depth, visited).0.members;
            var kept := KeptValues(heap, heap[id].attrs);
            && |members| == 1 + |kept|
            && forall k :: 0 <= k < |kept| ==>
                 members[1 + k].1 == ToDict(heap, kept[k], maxDepth, depth + 1,
                                            ListToDict(heap, kept[..k], maxDepth, depth + 1, visited + {id}).1).0
  {
    AttrsToDictMembers(heap, heap[id].attrs, maxDepth, depth + 1, visited + {id});
  }

  /** The endpoints' call: depth limit 20, starting at depth 0 with nothing visited. */
  function ModelToDict(heap: Heap, root: Value): (j: Json)
    requires Closed(heap) && RefsIn(heap, root)
    ensures Bounded(j, DefaultMaxDepth + 2)
  {
    ToDict(heap, root, DefaultMaxDepth, 0, {}).0
  }

  /** The visited set is shared across siblings: an object listed twice is converted in full
      the first time and comes out as the circular marker the second time, although the
      structure has no cycle. */
  lemma RepeatedObjectIsCircular(heap: Heap, id: NodeId, maxDepth: int, depth: int, visited: set<NodeId>)
    requires Closed(heap) && id in heap && depth <= maxDepth
    ensures var r := ListToDict(heap, [VRef(id), VRef(id)], maxDepth, depth, visited);
            && (id !in visited ==> r.0[0].JObject? && r.0[0].members[0] == ("__type__", JPrim(PStr(heap[id].className))))
            && r.0[1] == CircularMarker(heap[id].className)
  {
    var items := [VRef(id), VRef(id)];
    var first := ToDict(heap, items[0], maxDepth, depth, visited);
    assert id in first.1;
    assert items[1..] == [VRef(id)];
    assert [VRef(id)][1..] == [];
    var second := ToDict(heap, items[1], maxDepth, depth, first.1);
    assert ListToDict(heap, items[1..], maxDepth, depth, first.1).0 == [second.0];
  }

  /** An object whose only attribute points back at itself converts to its class name and
      that attribute as the circular marker: the walk stops instead of looping. */
  lemma SelfReferenceStops(heap: Heap, id: NodeId, name: string, maxDepth: int, depth: int, visited: set<NodeId>)
    requires Closed(heap) && id in heap && Kept(name)
    requires heap[id].attrs == [(name, VRef(id))]
    requires id !in visited && depth < maxDepth
    ensures ToDict(heap, VRef(id), maxDepth, depth, visited).0
         == JObject([("__type__", JPrim(PStr(heap[id].className))), (name, CircularMarker(heap[id].className))])
  {
    var attrs := heap[id].attrs;
    var visited' := visited + {id};
    var inner := ToDict(heap, VRef(id), maxDepth, depth + 1, visited');
    assert inner.0 == CircularMarker(heap[id].className);
    assert attrs[1..] == [];
    assert AttrsToDict(heap, attrs, maxDepth, depth + 1, visited').0 == [(name, inner.0)];
  }

  /** Items are converted one by one and in place: a list of primitives within the depth
      limit comes back as the same primitives, in the same order, and marks nothing visited. */
  lemma {:induction false} PrimitiveListKept(heap: Heap, items: seq<Value>, maxDepth: int, depth: int, visited: set<NodeId>)
    requires Closed(heap) && depth <= maxDepth
    requires forall i :: 0 <= i < |items| ==> items[i].VPrim?
    ensures var r := ListToDict(heap, items, maxDepth, depth, visited);
            && r.1 == visited
            && forall i :: 0 <= i < |items| ==> r.0[i] == JPrim(items[i].p)
    decreases |items|
  {
    if |items| > 0 {
      PrimitiveListKept(heap, items[1..], maxDepth, depth, visited);
      var rest := ListToDict(heap, items[1..], maxDepth, depth, visited);
      assert forall i :: 1 <= i < |items| ==> items[i] == items[1..][i - 1];
      assert ListToDict(heap, items, maxDepth, depth, visited).0 == [JPrim(items[0].p)] + rest.0;
    }
  }
}
