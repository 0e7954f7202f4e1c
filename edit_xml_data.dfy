/**
 * The amendment diff of Chummer/Forms/EditXmlData.cs: node paths, grouping of child elements by
 * identifying attribute, and the node comparison that reports added, removed and modified nodes
 * and attributes. Output is a list of diff records in place of localized text; a .NET
 * `Dictionary` that only grows or loses entries keeps insertion order, so it is an association
 * list here.
 */
module EditXmlData {
  import opened Common

  /** An XML node: an element, a text node, or any other node with its `Name`. */
  datatype XNode =
    | Element(name: string, attributes: seq<(string, string)>, children: seq<XNode>)
    | Text(value: string)
    | Other(name: string)

  /** `XmlNode.Name`. */
  function NodeName(n: XNode): string
  {
    match n
    case Element(name, _, _) => name
    case Text(_) => "#text"
    case Other(name) => name
  }

  /** One line group of the diff output, with the path it names. */
  datatype Diff =
    | Added(path: string)
    | Removed(path: string)
    | Modified(path: string)
    | ModifiedText(path: string, oldText: string, newText: string)
    | RemovedAttribute(path: string, key: string, value: string)
    | ModifiedAttribute(path: string, key: string, oldValue: string, newValue: string)
    | AddedAttribute(path: string, key: string, value: string)
    | ErrorComparingNodes(path: string)

  // ---------------------------------------------------------------------------------------------
  // Insertion-ordered dictionaries

  type Assoc<V> = seq<(string, V)>

  predicate DistinctKeys<V>(a: Assoc<V>)
  {
    forall i, j :: 0 <= i < j < |a| ==> a[i].0 != a[j].0
  }

  /** The value of the first entry with key `k`. */
  function Lookup<V>(a: Assoc<V>, k: string): (r: Option<V>)
    ensures r.None? <==> forall i :: 0 <= i < |a| ==> a[i].0 != k
    ensures r.Some? ==> (k, r.value) in a
  {
    if a == [] then None
    else if a[0].0 == k then Some(a[0].1)
    else Lookup(a[1..], k)
  }

  /** In a dictionary with distinct keys, an entry is what a lookup of its key finds. */
  lemma {:induction false} LookupEntry<V>(a: Assoc<V>, i: nat)
    requires DistinctKeys(a) && i < |a|
    ensures Lookup(a, a[i].0) == Some(a[i].1)
  {
    if i > 0 {
      assert a[0].0 != a[i].0;
      assert a[1..][i - 1] == a[i];
      LookupEntry(a[1..], i - 1);
    }
  }

  /** `dict[k] = v`: an existing key keeps its position and gets the new value; a new one goes last. */
  function Put<V>(a: Assoc<V>, k: string, v: V): (r: Assoc<V>)
    ensures Lookup(a, k).Some? ==> |r| == |a| && forall i :: 0 <= i < |a| ==> r[i].0 == a[i].0
    ensures Lookup(a, k).None? ==> r == a + [(k, v)]
    ensures forall p :: p in r ==> p == (k, v) || p in a
  {
    if a == [] then [(k, v)]
    else if a[0].0 == k then [(k, v)] + a[1..]
    else [a[0]] + Put(a[1..], k, v)
  }

  /** `dict[k] = v` keeps the keys distinct. */
  lemma PutDistinct<V>(a: Assoc<V>, k: string, v: V)
    requires DistinctKeys(a)
    ensures DistinctKeys(Put(a, k, v))
  {
    var r := Put(a, k, v);
    forall i, j | 0 <= i < j < |r| ensures r[i].0 != r[j].0 {
      if Lookup(a, k).Some? || j < |a| {
        assert r[i].0 == a[i].0 && r[j].0 == a[j].0;
      } else {
        assert r[i] == a[i] && r[j].0 == k;
      }
    }
  }

  /** After `dict[k] = v`, `k` finds `v` and every other key finds what it found before. */
  lemma {:induction false} PutLookup<V>(a: Assoc<V>, k: string, v: V, j: string)
    ensures Lookup(Put(a, k, v), j) == if j == k then Some(v) else Lookup(a, j)
  {
    if a != [] && a[0].0 != k {
      PutLookup(a[1..], k, v, j);
      assert Put(a, k, v)[1..] == Put(a[1..], k, v);
    }
  }

  /** `dict.Remove(k)`: drop the entry with key `k`, keeping the order of the rest. */
  function Delete<V>(a: Assoc<V>, k: string): (r: Assoc<V>)
    ensures forall j :: Lookup(r, j) == if j == k then None else Lookup(a, j)
    ensures Lookup(a, k).None? ==> r == a
    ensures forall p :: p in r ==> p in a
  {
    if a == [] then []
    else if a[0].0 == k then Delete(a[1..], k)
    else [a[0]] + Delete(a[1..], k)
  }

  /** `a` after removing, in order, the key of every entry of `b`. */
  function RemoveAll<V, W>(a: Assoc<V>, b: Assoc<W>): (r: Assoc<V>)
    ensures forall j :: Lookup(r, j) == if Lookup(b, j).Some? then None else Lookup(a, j)
    ensures forall p :: p in r ==> p in a
    decreases |b|
  {
    if b == [] then a
    else
      LookupFront(b);
      Delete(RemoveAll(a, b[..|b| - 1]), b[|b| - 1].0)
  }

  /** A key is in a dictionary exactly when it is in all but the last entry, or is the last entry's key. */
  lemma LookupFront<W>(b: Assoc<W>)
    requires b != []
    ensures forall j :: Lookup(b, j).Some? <==> Lookup(b[..|b| - 1], j).Some? || b[|b| - 1].0 == j
  {
    forall j ensures Lookup(b, j).Some? <==> Lookup(b[..|b| - 1], j).Some? || b[|b| - 1].0 == j {
      LookupFrontKey(b, j);
    }
  }

  lemma {:induction false} LookupFrontKey<W>(b: Assoc<W>, j: string)
    requires b != []
    ensures Lookup(b, j).Some? <==> Lookup(b[..|b| - 1], j).Some? || b[|b| - 1].0 == j
    decreases |b|
  {
    var front := b[..|b| - 1];
    if |b| > 1 {
      assert front[0] == b[0];
      if b[0].0 != j {
        assert b[1..][..|b| - 2] == front[1..];
        LookupFrontKey(b[1..], j);
      }
    }
  }

  /** Every entry's key has a value. */
  lemma KeyFound<V>(a: Assoc<V>, p: (string, V))
    ensures p in a ==> Lookup(a, p.0).Some?
  {
    if p in a {
      var i :| 0 <= i < |a| && a[i] == p;
      assert a[i].0 == p.0;
    }
  }

  /** A dictionary is emptied by removing its own keys. */
  lemma RemoveAllSelf<V>(a: Assoc<V>)
    ensures RemoveAll(a, a) == []
  {
    var r := RemoveAll(a, a);
    if r != [] {
      KeyFound(a, r[0]);
      KeyFound(r, r[0]);
      assert false;
    }
  }

  // ---------------------------------------------------------------------------------------------
  // Node paths

  /** `node.Attributes?[name]?.Value`: the first attribute with that name. */
  function AttributeValue(n: XNode, name: string): (r: Option<string>)
    ensures !n.Element? ==> r == None
    ensures n.Element? ==> r == Lookup(n.attributes, name)
  {
    if n.Element? then Lookup(n.attributes, name) else None
  }

  predicate NonEmpty(o: Option<string>)
  {
    o.Some? && o.value != ""
  }

  /**
   * The segment a node adds to a path: for an element, its name with `[id=…]` when it has a non-empty
   * id, else with `[name=…]` when it has a non-empty name attribute, else bare; for other nodes
   * just the name.
   */
  function NodeSegment(n: XNode): (r: string)
    ensures NodeName(n) <= r
    ensures NonEmpty(AttributeValue(n, "id")) ==> r == NodeName(n) + "[id=" + AttributeValue(n, "id").value + "]"
    ensures !NonEmpty(AttributeValue(n, "id")) && NonEmpty(AttributeValue(n, "name"))
            ==> r == NodeName(n) + "[name=" + AttributeValue(n, "name").value + "]"
    ensures !NonEmpty(AttributeValue(n, "id")) && !NonEmpty(AttributeValue(n, "name")) ==> r == NodeName(n)
  {
    var id := AttributeValue(n, "id");
    var nm := AttributeValue(n, "name");
    if NonEmpty(id) then NodeName(n) + "[id=" + id.value + "]"
    else if NonEmpty(nm) then NodeName(n) + "[name=" + nm.value + "]"
    else NodeName(n)
  }

  /**
   * `GetNodePath(node, current)`: a null node leaves the path as it is; otherwise the node's
   * segment is the whole path when the current one is empty, and is appended after a `/` otherwise.
   */
  function GetNodePath(node: Option<XNode>, current: string): (r: string)
    ensures node.None? ==> r == current
    ensures node.Some? && current == "" ==> r == NodeSegment(node.value)
    ensures node.Some? && current != "" ==> current + "/" <= r && r[|current| + 1..] == NodeSegment(node.value)
  {
    if node.None? then current
    else
      var segment := NodeSegment(node.value);
      if current == "" then segment else current + "/" + segment
  }

  // ---------------------------------------------------------------------------------------------
  // Grouping child elements

  function DigitChar(d: nat): char
    requires d < 10
  {
    "0123456789"[d]
  }

  /** `int.ToString(InvariantCulture)` for a count. */
  function NatToString(n: nat): (s: string)
    ensures |s| >= 1 && forall i :: 0 <= i < |s| ==> '0' <= s[i] <= '9'
    decreases n
  {
    if n < 10 then [DigitChar(n)] else NatToString(n / 10) + [DigitChar(n % 10)]
  }

  /** The key of an element child: its id, else its name attribute, else `Name_<groups so far>`. */
  function GroupKey(n: XNode, count: nat): (k: string)
    requires n.Element?
    ensures NonEmpty(AttributeValue(n, "id")) ==> k == AttributeValue(n, "id").value
    ensures !NonEmpty(AttributeValue(n, "id")) && NonEmpty(AttributeValue(n, "name")) ==> k == AttributeValue(n, "name").value
    ensures !NonEmpty(AttributeValue(n, "id")) && !NonEmpty(AttributeValue(n, "name"))
            ==> k == n.name + "_" + NatToString(count)
  {
    var id := AttributeValue(n, "id");
    if NonEmpty(id) then id.value
    else
      var nm := AttributeValue(n, "name");
      if NonEmpty(nm) then nm.value else n.name + "_" + NatToString(count)
  }

  /** The groups of `children`: element children in order, each stored under its key, a later one overwriting. */
  function Groups(children: seq<XNode>): (g: Assoc<XNode>)
    ensures DistinctKeys(g)
    ensures forall p :: p in g ==> p.1 in children && p.1.Element?
    ensures |g| <= |children|
    decreases |children|
  {
    if children == [] then []
    else
      var front := children[..|children| - 1];
      var last := children[|children| - 1];
      var g := Groups(front);
      assert forall p :: p in g ==> p.1 in children by {
        forall p | p in g ensures p.1 in children {
          var i :| 0 <= i < |front| && front[i] == p.1;
          assert children[i] == p.1;
        }
      }
      if last.Element? then PutDistinct(g, GroupKey(last, |g|), last); Put(g, GroupKey(last, |g|), last) else g
  }

  /** The key lookup inside the grouping loop: the id, then the name attribute, then the numbered node name. */
  method ChildKey(node: XNode, count: nat) returns (strKey: string)
    requires node.Element?
    ensures strKey == GroupKey(node, count)
  {
    var key := AttributeValue(node, "id");
    if NonEmpty(key) {
      return key.value;
    }
    key := AttributeValue(node, "name");
    if NonEmpty(key) {
      return key.value;
    }
    return node.name + "_" + NatToString(count);
  }

  /** `GroupChildNodes(childNodes)`: a null list gives no groups; non-element children are skipped. */
  method GroupChildNodes(childNodes: Option<seq<XNode>>) returns (groups: Assoc<XNode>)
    ensures groups == if childNodes.None? then [] else Groups(childNodes.value)
  {
    if childNodes.None? {
      return [];
    }
    var nodes := childNodes.value;
    groups := [];
    var i := 0;
    while i < |nodes|
      invariant 0 <= i <= |nodes|
      invariant groups == Groups(nodes[..i])
    {
      GroupsStep(nodes, i);
      groups := GroupNode(groups, nodes[i]);
      i := i + 1;
    }
    assert nodes[..|nodes|] == nodes;
  }

  /** The loop body: a non-element is skipped; an element is stored under its key, overwriting. */
  method GroupNode(groups: Assoc<XNode>, node: XNode) returns (r: Assoc<XNode>)
    ensures r == if node.Element? then Put(groups, GroupKey(node, |groups|), node) else groups
  {
    if !node.Element? {
      return groups;
    }
    var strKey := ChildKey(node, |groups|);
    return Put(groups, strKey, node);
  }

  /** One step of the grouping loop: the next child is grouped onto the groups of those before it. */
  lemma GroupsStep(nodes: seq<XNode>, i: nat)
    requires i < |nodes|
    ensures Groups(nodes[..i + 1]) == if nodes[i].Element? then Put(Groups(nodes[..i]), GroupKey(nodes[i], |Groups(nodes[..i])|), nodes[i])
                                      else Groups(nodes[..i])
  {
    assert nodes[..i + 1][..i] == nodes[..i];
  }

  /** A later element child whose key is taken overwrites the group in place; a new key adds a group at the end. */
  lemma GroupsOverwrite(children: seq<XNode>, e: XNode)
    requires e.Element?
    ensures Lookup(Groups(children + [e]), GroupKey(e, |Groups(children)|)) == Some(e)
    ensures |Groups(children + [e])| == |Groups(children)| + (if Lookup(Groups(children), GroupKey(e, |Groups(children)|)).Some? then 0 else 1)
  {
    assert (children + [e])[..|children|] == children;
    var g := Groups(children);
    PutLookup(g, GroupKey(e, |g|), e, GroupKey(e, |g|));
  }

  /** A non-element child changes no group. */
  lemma GroupsSkipNonElement(children: seq<XNode>, n: XNode)
    requires !n.Element?
    ensures Groups(children + [n]) == Groups(children)
  {
    assert (children + [n])[..|children|] == children;
  }

  /** Children that are all elements with distinct non-empty ids each get a group of their own, under their id, in order. */
  lemma {:induction false} GroupsByDistinctIds(children: seq<XNode>)
    requires forall i :: 0 <= i < |children| ==> children[i].Element? && NonEmpty(AttributeValue(children[i], "id"))
    requires forall i, j :: 0 <= i < j < |children| ==> AttributeValue(children[i], "id") != AttributeValue(children[j], "id")
    ensures |Groups(children)| == |children|
    ensures forall i :: 0 <= i < |children| ==> Groups(children)[i].1 == children[i] && Some(Groups(children)[i].0) == AttributeValue(children[i], "id")
    decreases |children|
  {
    if children != [] {
      var front := children[..|children| - 1];
      var last := children[|children| - 1];
      GroupsByDistinctIds(front);
      var g := Groups(front);
      var k := GroupKey(last, |g|);
      forall i | 0 <= i < |g| ensures g[i].0 != k {
        assert front[i] == children[i];
      }
      assert Lookup(g, k).None?;
    }
  }

  // ---------------------------------------------------------------------------------------------
  // Sizes, for termination of the comparison

  function Size(n: XNode): nat
    decreases n
  {
    match n
    case Element(_, _, cs) => 1 + ChildrenSize(cs)
    case _ => 1
  }

  function ChildrenSize(cs: seq<XNode>): nat
    decreases cs
  {
    if cs == [] then 0 else Size(cs[0]) + ChildrenSize(cs[1..])
  }

  lemma {:induction false} ChildSmaller(cs: seq<XNode>, x: XNode)
    requires x in cs
    ensures Size(x) <= ChildrenSize(cs)
    decreases cs
  {
    if cs[0] != x {
      ChildSmaller(cs[1..], x);
    }
  }

  function OptSize(n: Option<XNode>): nat
  {
    if n.Some? then Size(n.value) else 0
  }

  // ---------------------------------------------------------------------------------------------
  // Attribute diff

  /** The record for one base attribute `(k, v)`: removed when the result lacks `k`, modified when its value differs. */
  function BaseAttributeDiff(path: string, resultA: Assoc<string>, attr: (string, string)): (r: seq<Diff>)
    ensures |r| <= 1
    ensures r == [] <==> Lookup(resultA, attr.0) == Some(attr.1)
  {
    match Lookup(resultA, attr.0)
    case None => [RemovedAttribute(path, attr.0, attr.1)]
    case Some(nv) => if nv != attr.1 then [ModifiedAttribute(path, attr.0, attr.1, nv)] else []
  }

  /** The `RemovedAttribute` / `ModifiedAttribute` records for the base attributes, in base order. */
  function BaseAttributeDiffs(path: string, baseA: Assoc<string>, resultA: Assoc<string>): seq<Diff>
    decreases |baseA|
  {
    if baseA == [] then []
    else BaseAttributeDiffs(path, baseA[..|baseA| - 1], resultA) + BaseAttributeDiff(path, resultA, baseA[|baseA| - 1])
  }

  /** An `AddedAttribute` record for each entry left over. */
  function AddedAttributeDiffs(path: string, rest: Assoc<string>): (r: seq<Diff>)
    ensures |r| == |rest|
    ensures forall i :: 0 <= i < |rest| ==> r[i] == AddedAttribute(path, rest[i].0, rest[i].1)
    decreases |rest|
  {
    if rest == [] then []
    else
      var front := AddedAttributeDiffs(path, rest[..|rest| - 1]);
      assert forall i :: 0 <= i < |rest| - 1 ==> rest[..|rest| - 1][i] == rest[i];
      front + [AddedAttribute(path, rest[|rest| - 1].0, rest[|rest| - 1].1)]
  }

  /** The attribute records for one element pair. */
  function AttributeDiffs(path: string, baseA: Assoc<string>, resultA: Assoc<string>): seq<Diff>
  {
    BaseAttributeDiffs(path, baseA, resultA) + AddedAttributeDiffs(path, RemoveAll(resultA, baseA))
  }

  lemma {:induction false} BaseAttributeDiffsKinds(path: string, baseA: Assoc<string>, resultA: Assoc<string>, d: Diff)
    requires DistinctKeys(baseA) && DistinctKeys(resultA) && d in BaseAttributeDiffs(path, baseA, resultA)
    ensures d.RemovedAttribute? || d.ModifiedAttribute?
    decreases |baseA|
  {
    var front := baseA[..|baseA| - 1];
    if d in BaseAttributeDiffs(path, front, resultA) {
      BaseAttributeDiffsKinds(path, front, resultA, d);
    }
  }

  lemma {:induction false} RemovedAttributeMeaning(path: string, baseA: Assoc<string>, resultA: Assoc<string>,
                                                   k: string, ov: string)
    ensures RemovedAttribute(path, k, ov) in BaseAttributeDiffs(path, baseA, resultA)
            <==> (k, ov) in baseA && Lookup(resultA, k).None?
    decreases |baseA|
  {
    if baseA != [] {
      var front := baseA[..|baseA| - 1];
      RemovedAttributeMeaning(path, front, resultA, k, ov);
      assert baseA == front + [baseA[|baseA| - 1]];
      assert BaseAttributeDiffs(path, baseA, resultA)
          == BaseAttributeDiffs(path, front, resultA) + BaseAttributeDiff(path, resultA, baseA[|baseA| - 1]);
    }
  }

  lemma {:induction false} ModifiedAttributeMeaning(path: string, baseA: Assoc<string>, resultA: Assoc<string>,
                                                    k: string, ov: string, nv: string)
    ensures ModifiedAttribute(path, k, ov, nv) in BaseAttributeDiffs(path, baseA, resultA)
            <==> (k, ov) in baseA && Lookup(resultA, k) == Some(nv) && ov != nv
    decreases |baseA|
  {
    if baseA != [] {
      var front := baseA[..|baseA| - 1];
      ModifiedAttributeMeaning(path, front, resultA, k, ov, nv);
      assert baseA == front + [baseA[|baseA| - 1]];
      assert BaseAttributeDiffs(path, baseA, resultA)
          == BaseAttributeDiffs(path, front, resultA) + BaseAttributeDiff(path, resultA, baseA[|baseA| - 1]);
    }
  }

  lemma {:induction false} AddedAttributeDiffsMeaning(path: string, rest: Assoc<string>, d: Diff)
    ensures d in AddedAttributeDiffs(path, rest) <==> d.AddedAttribute? && d.path == path && (d.key, d.value) in rest
    decreases |rest|
  {
    if rest != [] {
      var front := rest[..|rest| - 1];
      AddedAttributeDiffsMeaning(path, front, d);
      assert rest == front + [rest[|rest| - 1]];
    }
  }

  /**
   * The attribute records classify every attribute: only in the base is `RemovedAttribute`, in
   * both with different values is `ModifiedAttribute`, only in the result is `AddedAttribute`, and
   * an attribute with the same value on both sides produces no record.
   */
  lemma AttributeDiffClassification(path: string, baseA: Assoc<string>, resultA: Assoc<string>,
                                    k: string, ov: string, nv: string)
    requires DistinctKeys(baseA) && DistinctKeys(resultA)
    ensures RemovedAttribute(path, k, ov) in AttributeDiffs(path, baseA, resultA)
            <==> (k, ov) in baseA && Lookup(resultA, k).None?
    ensures ModifiedAttribute(path, k, ov, nv) in AttributeDiffs(path, baseA, resultA)
            <==> (k, ov) in baseA && (k, nv) in resultA && ov != nv
    ensures AddedAttribute(path, k, nv) in AttributeDiffs(path, baseA, resultA)
            <==> (k, nv) in resultA && Lookup(baseA, k).None?
  {
    RemovedAttributeMeaning(path, baseA, resultA, k, ov);
    ModifiedAttributeMeaning(path, baseA, resultA, k, ov, nv);
    var rest := RemoveAll(resultA, baseA);
    AddedAttributeDiffsMeaning(path, rest, RemovedAttribute(path, k, ov));
    AddedAttributeDiffsMeaning(path, rest, ModifiedAttribute(path, k, ov, nv));
    AddedAttributeDiffsMeaning(path, rest, AddedAttribute(path, k, nv));
    if AddedAttribute(path, k, nv) in BaseAttributeDiffs(path, baseA, resultA) {
      BaseAttributeDiffsKinds(path, baseA, resultA, AddedAttribute(path, k, nv));
    }
    if (k, nv) in resultA {
      var i :| 0 <= i < |resultA| && resultA[i] == (k, nv);
      LookupEntry(resultA, i);
      if Lookup(baseA, k).None? {
        assert Lookup(rest, k) == Some(nv);
      }
    }
    if (k, nv) in rest {
      assert Lookup(rest, k).Some?;
    }
  }

  /** The dictionary `Add` loop succeeds exactly on distinct names; a duplicate makes `Add` throw. */
  method BuildAttributeDictionary(attrs: seq<(string, string)>) returns (d: Option<Assoc<string>>)
    ensures d == if DistinctKeys(attrs) then Some(attrs) else None
  {
    var acc: Assoc<string> := [];
    var i := 0;
    while i < |attrs|
      invariant 0 <= i <= |attrs|
      invariant acc == attrs[..i] && DistinctKeys(acc)
    {
      if Lookup(acc, attrs[i].0).Some? {
        var j :| 0 <= j < i && acc[j].0 == attrs[i].0;
        assert attrs[j].0 == attrs[i].0;
        return None;
      }
      acc := acc + [attrs[i]];
      i := i + 1;
    }
    assert attrs[..|attrs|] == attrs;
    return Some(acc);
  }

  /** One step of the attribute loop: the result dictionary with the earlier base keys removed still answers the next key as the full one does. */
  lemma AttributeStep(path: string, baseA: Assoc<string>, resultA: Assoc<string>, i: nat)
    requires DistinctKeys(baseA) && i < |baseA|
    ensures BaseAttributeDiffs(path, baseA[..i + 1], resultA)
         == BaseAttributeDiffs(path, baseA[..i], resultA) + BaseAttributeDiff(path, resultA, baseA[i])
    ensures Lookup(RemoveAll(resultA, baseA[..i]), baseA[i].0) == Lookup(resultA, baseA[i].0)
    ensures RemoveAll(resultA, baseA[..i + 1]) == Delete(RemoveAll(resultA, baseA[..i]), baseA[i].0)
  {
    assert baseA[..i + 1][..i] == baseA[..i] && baseA[..i + 1][i] == baseA[i];
    forall j | 0 <= j < i ensures baseA[..i][j].0 != baseA[i].0 {
      assert baseA[j].0 != baseA[i].0;
    }
  }

  /**
   * The attribute part of the comparison: walk the base attributes, reporting each missing one as
   * removed and each changed one as modified while deleting matched keys from the result
   * dictionary, then report what is left of it as added.
   */
  method CompareAttributes(path: string, baseA: Assoc<string>, resultA: Assoc<string>) returns (out: seq<Diff>)
    requires DistinctKeys(baseA) && DistinctKeys(resultA)
    ensures out == AttributeDiffs(path, baseA, resultA)
  {
    out := [];
    var remaining := resultA;
    var i := 0;
    while i < |baseA|
      invariant 0 <= i <= |baseA|
      invariant out == BaseAttributeDiffs(path, baseA[..i], resultA)
      invariant remaining == RemoveAll(resultA, baseA[..i])
    {
      AttributeStep(path, baseA, resultA, i);
      var k := baseA[i].0;
      var v := baseA[i].1;
      var found := Lookup(remaining, k);
      if found.None? {
        out := out + [RemovedAttribute(path, k, v)];
      } else {
        remaining := Delete(remaining, k);
        if found.value != v {
          out := out + [ModifiedAttribute(path, k, v, found.value)];
        }
      }
      i := i + 1;
    }
    assert baseA[..|baseA|] == baseA;
    var added := ReportAdded(path, remaining);
    out := out + added;
  }

  /** The trailing loop: an `AddedAttribute` record for each result attribute left, in order. */
  method ReportAdded(path: string, remaining: Assoc<string>) returns (out: seq<Diff>)
    ensures out == AddedAttributeDiffs(path, remaining)
  {
    out := [];
    var j := 0;
    while j < |remaining|
      invariant 0 <= j <= |remaining|
      invariant out == AddedAttributeDiffs(path, remaining[..j])
    {
      assert remaining[..j + 1][..j] == remaining[..j];
      out := out + [AddedAttribute(path, remaining[j].0, remaining[j].1)];
      j := j + 1;
    }
    assert remaining[..|remaining|] == remaining;
  }

  // ---------------------------------------------------------------------------------------------
  // Text content

  /** The concatenated values of the direct text children. */
  function TextContent(children: seq<XNode>): (r: string)
    ensures (forall i :: 0 <= i < |children| ==> !children[i].Text?) ==> r == ""
    decreases |children|
  {
    if children == [] then ""
    else
      var last := children[|children| - 1];
      TextContent(children[..|children| - 1]) + (if last.Text? then last.value else "")
  }

  method CollectText(children: seq<XNode>) returns (text: string)
    ensures text == TextContent(children)
  {
    text := "";
    var i := 0;
    while i < |children|
      invariant 0 <= i <= |children|
      invariant text == TextContent(children[..i])
    {
      assert children[..i + 1][..i] == children[..i];
      if children[i].Text? {
        text := text + children[i].value;
      }
      i := i + 1;
    }
    assert children[..|children|] == children;
  }

  /** A `ModifiedText` record when either side has text and they differ ordinally. */
  function TextDiff(path: string, baseText: string, resultText: string): (r: seq<Diff>)
    ensures r != [] <==> baseText != resultText
  {
    if (|baseText| > 0 || |resultText| > 0) && baseText != resultText then [ModifiedText(path, baseText, resultText)] else []
  }

  // ---------------------------------------------------------------------------------------------
  // Node comparison

  /** A `Removed` record for each group left in the base dictionary. */
  function RemovedGroupDiffs(path: string, rest: Assoc<XNode>): (r: seq<Diff>)
    ensures |r| == |rest|
    ensures forall d :: d in r ==> d.Removed?
    decreases |rest|
  {
    if rest == [] then []
    else RemovedGroupDiffs(path, rest[..|rest| - 1]) + [Removed(GetNodePath(Some(rest[|rest| - 1].1), path))]
  }

  /**
   * `CompareXmlNodesAsync(base, result, _, current)`: nothing for two nulls; `Added` / `Removed`
   * when one side is null; for two text nodes `Modified` exactly when their values differ; for two
   * elements the attribute, text and child records; nothing for any other pair.
   */
  function CompareNodes(b: Option<XNode>, r: Option<XNode>, current: string): (d: seq<Diff>)
    ensures b.None? && r.None? ==> d == []
    ensures b.None? && r.Some? ==> d == [Added(GetNodePath(r, current))]
    ensures b.Some? && r.None? ==> d == [Removed(GetNodePath(b, current))]
    ensures b.Some? && r.Some? && b.value.Text? && r.value.Text?
            ==> d == if b.value.value == r.value.value then [] else [Modified(GetNodePath(b, current))]
    decreases OptSize(b), 2
  {
    if b.None? && r.None? then []
    else
      var nodePath := GetNodePath(if b.Some? then b else r, current);
      if b.None? then [Added(nodePath)]
      else if r.None? then [Removed(nodePath)]
      else if b.value.Text? && r.value.Text? then
        (if b.value.value != r.value.value then [Modified(nodePath)] else [])
      else if b.value.Element? && r.value.Element? then CompareElements(b.value, r.value, current, nodePath)
      else []
  }

  /**
   * Two elements: a duplicate attribute name on either side makes the dictionary `Add` throw, and
   * the handler reports an error at the parent's path instead; otherwise attribute records, the
   * text record, the records for result groups (recursing on matched keys) and `Removed` for the
   * base groups no result group matched.
   */
  function CompareElements(b: XNode, r: XNode, current: string, nodePath: string): seq<Diff>
    requires b.Element? && r.Element?
    decreases Size(b), 1
  {
    if !DistinctKeys(b.attributes) || !DistinctKeys(r.attributes) then [ErrorComparingNodes(current)]
    else
      var bg := Groups(b.children);
      var rg := Groups(r.children);
      AttributeDiffs(nodePath, b.attributes, r.attributes)
      + TextDiff(nodePath, TextContent(b.children), TextContent(r.children))
      + ChildGroupDiffs(b, nodePath, bg, rg)
  }

  /** The child records: those of the result groups, then `Removed` for the base groups no result key matched. */
  function ChildGroupDiffs(parent: XNode, nodePath: string, baseG: Assoc<XNode>, resultG: Assoc<XNode>): seq<Diff>
    requires parent.Element?
    requires forall p :: p in baseG ==> p.1 in parent.children
    decreases Size(parent), 0, |resultG| + 2
  {
    ResultGroupDiffs(parent, nodePath, baseG, resultG) + RemovedGroupDiffs(nodePath, RemoveAll(baseG, resultG))
  }

  /** For each result group in order: `Added` when its key is not a base group, else the recursive comparison. */
  function ResultGroupDiffs(parent: XNode, nodePath: string, baseG: Assoc<XNode>, resultG: Assoc<XNode>): seq<Diff>
    requires parent.Element?
    requires forall p :: p in baseG ==> p.1 in parent.children
    decreases Size(parent), 0, |resultG| + 1
  {
    if resultG == [] then []
    else ResultGroupDiffs(parent, nodePath, baseG, resultG[..|resultG| - 1]) + GroupDiff(parent, nodePath, baseG, resultG[|resultG| - 1])
  }

  /** The records for one result group `(k, v)`. */
  function GroupDiff(parent: XNode, nodePath: string, baseG: Assoc<XNode>, group: (string, XNode)): seq<Diff>
    requires parent.Element?
    requires forall p :: p in baseG ==> p.1 in parent.children
    decreases Size(parent), 0, 0
  {
    match Lookup(baseG, group.0)
    case None => [Added(GetNodePath(Some(group.1), nodePath))]
    case Some(bv) =>
      ChildSmaller(parent.children, bv);
      CompareNodes(Some(bv), Some(group.1), nodePath)
  }

  /** One step of the child loop: the base dictionary with the earlier result keys removed still answers the next key as the full one does. */
  lemma ResultGroupStep(parent: XNode, nodePath: string, baseG: Assoc<XNode>, resultG: Assoc<XNode>, i: nat)
    requires parent.Element?
    requires forall p :: p in baseG ==> p.1 in parent.children
    requires DistinctKeys(resultG) && i < |resultG|
    ensures ResultGroupDiffs(parent, nodePath, baseG, resultG[..i + 1])
         == ResultGroupDiffs(parent, nodePath, baseG, resultG[..i]) + GroupDiff(parent, nodePath, baseG, resultG[i])
    ensures Lookup(RemoveAll(baseG, resultG[..i]), resultG[i].0) == Lookup(baseG, resultG[i].0)
    ensures RemoveAll(baseG, resultG[..i + 1]) == Delete(RemoveAll(baseG, resultG[..i]), resultG[i].0)
  {
    assert resultG[..i + 1][..i] == resultG[..i] && resultG[..i + 1][i] == resultG[i];
    forall j | 0 <= j < i ensures resultG[..i][j].0 != resultG[i].0 {
      assert resultG[j].0 != resultG[i].0;
    }
  }

  /** `CompareXmlNodesAsync` itself: the same case split as `CompareNodes`. */
  method CompareXmlNodes(b: Option<XNode>, r: Option<XNode>, current: string) returns (out: seq<Diff>)
    ensures out == CompareNodes(b, r, current)
    decreases OptSize(b), 2
  {
    if b.None? && r.None? {
      return [];
    }
    var nodePath := GetNodePath(if b.Some? then b else r, current);
    if b.None? {
      return [Added(nodePath)];
    }
    if r.None? {
      return [Removed(nodePath)];
    }
    var bn := b.value;
    var rn := r.value;
    if bn.Text? && rn.Text? {
      if bn.value != rn.value {
        return [Modified(nodePath)];
      }
      return [];
    }
    if bn.Element? && rn.Element? {
      out := CompareElementNodes(bn, rn, current, nodePath);
      return;
    }
    return [];
  }

  /** The element branch: build both attribute dictionaries, then attributes, text and children in that order. */
  method CompareElementNodes(b: XNode, r: XNode, current: string, nodePath: string) returns (out: seq<Diff>)
    requires b.Element? && r.Element?
    ensures out == CompareElements(b, r, current, nodePath)
    decreases Size(b), 1
  {
    var baseAttribs := BuildAttributeDictionary(b.attributes);
    if baseAttribs.None? {
      return [ErrorComparingNodes(current)];
    }
    var resultAttribs := BuildAttributeDictionary(r.attributes);
    if resultAttribs.None? {
      return [ErrorComparingNodes(current)];
    }
    var attributeOut := CompareAttributes(nodePath, baseAttribs.value, resultAttribs.value);
    var baseText := CollectText(b.children);
    var resultText := CollectText(r.children);
    var textOut := [];
    if |baseText| > 0 || |resultText| > 0 {
      if baseText != resultText {
        textOut := [ModifiedText(nodePath, baseText, resultText)];
      }
    }
    var baseGroups := GroupChildNodes(Some(b.children));
    var resultGroups := GroupChildNodes(Some(r.children));
    var childOut := CompareChildGroups(b, nodePath, baseGroups, resultGroups);
    out := attributeOut + textOut + childOut;
  }

  /**
   * The child part: for each result group, a missing base key is `Added`; a present one is taken
   * out of the base dictionary and compared recursively; the base groups left are `Removed`.
   */
  method CompareChildGroups(parent: XNode, nodePath: string, baseG: Assoc<XNode>, resultG: Assoc<XNode>)
    returns (out: seq<Diff>)
    requires parent.Element?
    requires forall p :: p in baseG ==> p.1 in parent.children
    requires DistinctKeys(resultG)
    ensures out == ChildGroupDiffs(parent, nodePath, baseG, resultG)
    decreases Size(parent), 0, 1
  {
    out := [];
    var remaining := baseG;
    var i := 0;
    while i < |resultG|
      invariant 0 <= i <= |resultG|
      invariant out == ResultGroupDiffs(parent, nodePath, baseG, resultG[..i])
      invariant remaining == RemoveAll(baseG, resultG[..i])
    {
      ResultGroupStep(parent, nodePath, baseG, resultG, i);
      var sub := CompareGroup(parent, nodePath, baseG, remaining, resultG[i]);
      remaining := Delete(remaining, resultG[i].0);
      out := out + sub;
      i := i + 1;
    }
    assert resultG[..|resultG|] == resultG;
    var removed := ReportRemoved(nodePath, remaining);
    out := out + removed;
  }

  /**
   * One result group `(k, v)` against the base dictionary with the earlier result keys taken out:
   * `Added` when `k` is missing, else the recursive comparison with the base group.
   */
  method CompareGroup(parent: XNode, nodePath: string, baseG: Assoc<XNode>, remaining: Assoc<XNode>,
                      group: (string, XNode)) returns (out: seq<Diff>)
    requires parent.Element?
    requires forall p :: p in baseG ==> p.1 in parent.children
    requires forall p :: p in remaining ==> p in baseG
    requires Lookup(remaining, group.0) == Lookup(baseG, group.0)
    ensures out == GroupDiff(parent, nodePath, baseG, group)
    decreases Size(parent), 0, 0
  {
    var found := Lookup(remaining, group.0);
    if found.None? {
      out := [Added(GetNodePath(Some(group.1), nodePath))];
    } else {
      ChildSmaller(parent.children, found.value);
      out := CompareXmlNodes(Some(found.value), Some(group.1), nodePath);
    }
  }

  /** The trailing loop: a `Removed` record for each base group left, in order. */
  method ReportRemoved(nodePath: string, remaining: Assoc<XNode>) returns (out: seq<Diff>)
    ensures out == RemovedGroupDiffs(nodePath, remaining)
  {
    out := [];
    var j := 0;
    while j < |remaining|
      invariant 0 <= j <= |remaining|
      invariant out == RemovedGroupDiffs(nodePath, remaining[..j])
    {
      assert remaining[..j + 1][..j] == remaining[..j];
      out := out + [Removed(GetNodePath(Some(remaining[j].1), nodePath))];
      j := j + 1;
    }
    assert remaining[..|remaining|] == remaining;
  }

  // ---------------------------------------------------------------------------------------------
  // Properties of the comparison

  /** A result group whose key no base group has is reported `Added` at its own path. */
  lemma {:induction false} MissingGroupIsAdded(parent: XNode, nodePath: string, baseG: Assoc<XNode>,
                                               resultG: Assoc<XNode>, i: nat)
    requires parent.Element?
    requires forall p :: p in baseG ==> p.1 in parent.children
    requires i < |resultG| && Lookup(baseG, resultG[i].0).None?
    ensures Added(GetNodePath(Some(resultG[i].1), nodePath)) in ResultGroupDiffs(parent, nodePath, baseG, resultG)
    decreases |resultG|
  {
    if i < |resultG| - 1 {
      assert resultG[..|resultG| - 1][i] == resultG[i];
      MissingGroupIsAdded(parent, nodePath, baseG, resultG[..|resultG| - 1], i);
    }
  }

  /** A base group whose key no result group has is reported `Removed` at its own path. */
  lemma LeftoverGroupIsRemoved(nodePath: string, baseG: Assoc<XNode>, resultG: Assoc<XNode>, i: nat)
    requires i < |baseG| && DistinctKeys(baseG) && Lookup(resultG, baseG[i].0).None?
    ensures Removed(GetNodePath(Some(baseG[i].1), nodePath)) in RemovedGroupDiffs(nodePath, RemoveAll(baseG, resultG))
  {
    var rest := RemoveAll(baseG, resultG);
    LookupEntry(baseG, i);
    assert Lookup(rest, baseG[i].0) == Some(baseG[i].1);
    RemovedGroupDiffsCover(nodePath, rest, baseG[i]);
  }

  lemma {:induction false} RemovedGroupDiffsCover(path: string, rest: Assoc<XNode>, p: (string, XNode))
    requires p in rest
    ensures Removed(GetNodePath(Some(p.1), path)) in RemovedGroupDiffs(path, rest)
    decreases |rest|
  {
    if p != rest[|rest| - 1] {
      var i :| 0 <= i < |rest| && rest[i] == p;
      assert rest[..|rest| - 1][i] == p;
      RemovedGroupDiffsCover(path, rest[..|rest| - 1], p);
    }
  }

  /** Every element in the tree has distinct attribute names, so no dictionary `Add` throws. */
  ghost predicate WellFormed(n: XNode)
    decreases n
  {
    n.Element? ==> DistinctKeys(n.attributes) && forall x :: x in n.children ==> WellFormed(x)
  }

  /** Comparing a well-formed node with itself reports nothing, at any depth. */
  lemma {:induction false} CompareWithItselfIsEmpty(n: XNode, current: string)
    requires WellFormed(n)
    ensures CompareNodes(Some(n), Some(n), current) == []
    decreases Size(n), 2
  {
    if n.Element? {
      var nodePath := GetNodePath(Some(n), current);
      assert CompareNodes(Some(n), Some(n), current) == CompareElements(n, n, current, nodePath);
      SelfAttributeDiffsEmpty(nodePath, n.attributes);
      assert TextDiff(nodePath, TextContent(n.children), TextContent(n.children)) == [];
      SelfChildDiffsEmpty(n, nodePath);
    }
  }

  /** An element's attributes compared with themselves, both passes together. */
  lemma SelfAttributeDiffsEmpty(path: string, a: Assoc<string>)
    requires DistinctKeys(a)
    ensures AttributeDiffs(path, a, a) == []
  {
    SelfAttributesEmpty(path, a, a);
    RemoveAllSelf(a);
    assert AddedAttributeDiffs(path, RemoveAll(a, a)) == [];
  }

  /** An element's child groups compared with themselves, the matched and the leftover ones together. */
  lemma {:induction false} SelfChildDiffsEmpty(n: XNode, nodePath: string)
    requires n.Element? && WellFormed(n)
    ensures ChildGroupDiffs(n, nodePath, Groups(n.children), Groups(n.children)) == []
    decreases Size(n), 1
  {
    var g := Groups(n.children);
    SelfGroupsEmpty(n, nodePath, g, |g|);
    assert g[..|g|] == g;
    RemoveAllSelf(g);
    assert RemovedGroupDiffs(nodePath, RemoveAll(g, g)) == [];
  }

  lemma {:induction false} SelfAttributesEmpty(path: string, prefix: Assoc<string>, a: Assoc<string>)
    requires DistinctKeys(a)
    requires forall p :: p in prefix ==> p in a
    ensures BaseAttributeDiffs(path, prefix, a) == []
    decreases |prefix|
  {
    if prefix != [] {
      var last := prefix[|prefix| - 1];
      assert last in prefix;
      var i :| 0 <= i < |a| && a[i] == last;
      LookupEntry(a, i);
      forall p | p in prefix[..|prefix| - 1] ensures p in a {
        var j :| 0 <= j < |prefix| - 1 && prefix[..|prefix| - 1][j] == p;
        assert prefix[j] == p;
      }
      SelfAttributesEmpty(path, prefix[..|prefix| - 1], a);
    }
  }

  lemma {:induction false} SelfGroupsEmpty(parent: XNode, nodePath: string, g: Assoc<XNode>, len: nat)
    requires parent.Element? && WellFormed(parent)
    requires g == Groups(parent.children) && len <= |g|
    ensures ResultGroupDiffs(parent, nodePath, g, g[..len]) == []
    decreases Size(parent), 0, len
  {
    if len > 0 {
      var prefix := g[..len];
      assert prefix[..len - 1] == g[..len - 1];
      SelfGroupsEmpty(parent, nodePath, g, len - 1);
      var k := prefix[len - 1].0;
      var v := prefix[len - 1].1;
      assert prefix[len - 1] == g[len - 1];
      LookupEntry(g, len - 1);
      assert g[len - 1] in g;
      ChildSmaller(parent.children, v);
      CompareWithItselfIsEmpty(v, nodePath);
      assert GroupDiff(parent, nodePath, g, prefix[len - 1]) == [];
    }
  }
}
