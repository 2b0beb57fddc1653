/** The node check at the root: processor names, one fixed-size record per rank, sorted by memcmp and then walked in runs
    of records that strcmp finds equal. */
module NodeLayout {

  newtype byte = x: int | 0 <= x < 256

  type Name = seq<byte>

  /** A record as the ranks send it: ended by a NUL, and nothing but NULs after the first. */
  ghost predicate Padded(name: Name) {
    && |name| > 0 && name[|name| - 1] == 0
    && forall i, j :: 0 <= i < j < |name| && name[i] == 0 ==> name[j] == 0
  }

  /** The C string that a buffer holds. */
  function CString(name: Name): Name {
    if name == [] || name[0] == 0 then [] else [name[0]] + CString(name[1..])
  }

  /** strcmp(a, b) == 0: byte by byte up to the first NUL. */
  predicate StrEqual(a: Name, b: Name)
    requires |a| == |b|
  {
    a == [] || (a[0] == b[0] && (a[0] == 0 || StrEqual(a[1..], b[1..])))
  }

  /** memcmp(a, b) <= 0 */
  predicate MemLeq(a: Name, b: Name)
    requires |a| == |b|
  {
    a == [] || a[0] < b[0] || (a[0] == b[0] && MemLeq(a[1..], b[1..]))
  }

  /** On padded records strcmp and memcmp agree on what is equal. */
  lemma {:induction false} StrEqualIsEqual(a: Name, b: Name)
    requires |a| == |b| && (a == [] || (Padded(a) && Padded(b)))
    ensures StrEqual(a, b) <==> a == b
  {
    if a != [] && a[0] == b[0] {
      if a[0] == 0 {
        assert forall j :: 0 <= j < |a| ==> a[j] == 0 && b[j] == 0;
        assert a == b;
      } else {
        assert a == [a[0]] + a[1..] && b == [b[0]] + b[1..];
        assert |a| > 1;
        StrEqualIsEqual(a[1..], b[1..]);
      }
    }
  }

  lemma {:induction false} MemLeqAntisymmetric(a: Name, b: Name)
    requires |a| == |b| && MemLeq(a, b) && MemLeq(b, a)
    ensures a == b
  {
    if a != [] {
      assert a == [a[0]] + a[1..] && b == [b[0]] + b[1..];
      MemLeqAntisymmetric(a[1..], b[1..]);
    }
  }

  /** What a rank does to the name that MPI gave it: the C string stays, and all behind it becomes NUL. */
  method PadName(name: array<byte>)
    requires name.Length > 0
    modifies name
    ensures Padded(name[..])
    ensures CString(name[..]) == CString(old(name[..])[name.Length - 1 := 0])
  {
    name[name.Length - 1] := 0;
    ghost var ended := name[..];
    var length := 0;
    while name[length] != 0
      invariant 0 <= length < name.Length && name[..] == ended
      invariant forall i :: 0 <= i < length ==> name[i] != 0
      decreases name.Length - length
    {
      length := length + 1;
    }
    for i := length to name.Length
      invariant forall j :: 0 <= j < length ==> name[j] == ended[j]
      invariant forall j :: length <= j < i ==> name[j] == 0
    {
      name[i] := 0;
    }
    CStringUpTo(ended, length);
    CStringUpTo(name[..], length);
    assert name[..][..length] == ended[..length];
  }

  lemma {:induction false} CStringUpTo(name: Name, n: nat)
    requires n < |name| && name[n] == 0 && forall i :: 0 <= i < n ==> name[i] != 0
    ensures CString(name) == name[..n]
  {
    if n > 0 {
      CStringUpTo(name[1..], n - 1);
      assert name[..n] == [name[0]] + name[1..][..n - 1];
    }
  }

  // ----- runs

  /** A node as a walk finds it: its name, and how many records in a row bear it. */
  datatype Node = Node(name: Name, size: nat)

  /** How many records from the first on equal `name`. */
  function RunLength(names: seq<Name>, name: Name): (n: nat)
    ensures n <= |names|
  {
    if names == [] || names[0] != name then 0 else 1 + RunLength(names[1..], name)
  }

  /** The records in runs of equal ones. */
  function Runs(names: seq<Name>): seq<Node>
    decreases |names|
  {
    if names == [] then []
    else
      var n := 1 + RunLength(names[1..], names[0]);
      [Node(names[0], n)] + Runs(names[n..])
  }

  lemma {:induction false} RunLengthRight(names: seq<Name>, name: Name)
    ensures var n := RunLength(names, name);
            && n <= |names| && (forall i :: 0 <= i < n ==> names[i] == name)
            && (n < |names| ==> names[n] != name)
  {
    if names != [] && names[0] == name {
      RunLengthRight(names[1..], name);
      var n := RunLength(names[1..], name);
      assert forall i :: 0 < i < n + 1 ==> names[i] == names[1..][i - 1];
    }
  }

  ghost predicate SameLength(names: seq<Name>, l: nat) {
    forall i :: 0 <= i < |names| ==> |names[i]| == l
  }

  /** Sorted by memcmp, as qsort leaves the records. */
  ghost predicate Sorted(names: seq<Name>, l: nat)
    requires SameLength(names, l)
  {
    forall i, j :: 0 <= i < j < |names| ==> MemLeq(names[i], names[j])
  }

  /** In sorted records, what comes after the first run does not come again. */
  lemma RunIsAll(names: seq<Name>, l: nat) returns (n: nat)
    requires SameLength(names, l) && Sorted(names, l) && names != []
    ensures n == 1 + RunLength(names[1..], names[0]) && n <= |names|
    ensures forall i :: 0 <= i < n ==> names[i] == names[0]
    ensures forall i :: n <= i < |names| ==> names[i] != names[0]
  {
    RunLengthRight(names[1..], names[0]);
    n := 1 + RunLength(names[1..], names[0]);
    forall i | 0 <= i < n
      ensures names[i] == names[0]
    {
      assert i > 0 ==> names[1..][i - 1] == names[i];
    }
    forall i | n <= i < |names|
      ensures names[i] != names[0]
    {
      assert names[1..][n - 1] == names[n];
      if names[i] == names[0] && n < i {
        MemLeqAntisymmetric(names[0], names[n]);
      }
    }
  }

  lemma {:induction false} CountCopies(s: seq<Name>, x: Name)
    requires forall i :: 0 <= i < |s| ==> s[i] == x
    ensures multiset(s)[x] == |s|
  {
    if s != [] {
      CountCopies(s[1..], x);
      assert s == [s[0]] + s[1..];
    }
  }

  function Names(nodes: seq<Node>): set<Name> {
    set i | 0 <= i < |nodes| :: nodes[i].name
  }

  function Total(nodes: seq<Node>): nat {
    if nodes == [] then 0 else nodes[0].size + Total(nodes[1..])
  }

  function Distinct(names: seq<Name>): set<Name> {
    set name | name in names
  }

  lemma SortedRest(names: seq<Name>, l: nat, n: nat)
    requires SameLength(names, l) && Sorted(names, l) && n <= |names|
    ensures SameLength(names[n..], l) && Sorted(names[n..], l)
  {
    forall i, j | 0 <= i < j < |names| - n
      ensures MemLeq(names[n..][i], names[n..][j])
    {
      assert names[n..][i] == names[n + i] && names[n..][j] == names[n + j];
    }
  }

  /** Copies of one name, and then others. */
  lemma CopiesAndRest(copies: seq<Name>, rest: seq<Name>, name: Name)
    requires copies != [] && forall i :: 0 <= i < |copies| ==> copies[i] == name
    requires forall i :: 0 <= i < |rest| ==> rest[i] != name
    ensures name !in rest
    ensures Distinct(copies + rest) == {name} + Distinct(rest)
    ensures multiset(copies + rest)[name] == |copies|
    ensures forall x :: x != name ==> multiset(copies + rest)[x] == multiset(rest)[x]
  {
    CountCopies(copies, name);
    assert multiset(copies + rest) == multiset(copies) + multiset(rest);
    assert copies[0] == name;
    forall x
      ensures x in Distinct(copies + rest) <==> x in {name} + Distinct(rest)
    {
    }
    forall x | x != name
      ensures multiset(copies + rest)[x] == multiset(rest)[x]
    {
      assert x !in copies;
    }
  }

  /** Taking off the first run of sorted records takes off one name, with all its records. */
  lemma FirstRun(names: seq<Name>, l: nat) returns (n: nat, rest: seq<Name>)
    requires SameLength(names, l) && Sorted(names, l) && names != []
    ensures 0 < n <= |names| && rest == names[n..] && SameLength(rest, l) && Sorted(rest, l)
    ensures Runs(names) == [Node(names[0], n)] + Runs(rest)
    ensures names[0] !in rest && Distinct(names) == {names[0]} + Distinct(rest)
    ensures multiset(names)[names[0]] == n
    ensures forall x :: x != names[0] ==> multiset(names)[x] == multiset(rest)[x]
  {
    n := RunIsAll(names, l);
    rest := names[n..];
    SortedRest(names, l, n);
    CopiesAndRest(names[..n], rest, names[0]);
    assert names == names[..n] + rest;
  }

  /** The runs of sorted records are one per distinct name. */
  lemma {:induction false} RunsAreDistinct(names: seq<Name>, l: nat)
    requires SameLength(names, l) && Sorted(names, l)
    ensures |Runs(names)| == |Distinct(names)| && Names(Runs(names)) == Distinct(names)
    decreases |names|
  {
    if names != [] {
      var n, rest := FirstRun(names, l);
      RunsAreDistinct(rest, l);
      NamesCons(Node(names[0], n), Runs(rest));
    }
  }

  lemma NamesCons(node: Node, nodes: seq<Node>)
    ensures Names([node] + nodes) == {node.name} + Names(nodes)
  {
    var all := [node] + nodes;
    assert all[0] == node;
    forall i | 0 <= i < |nodes|
      ensures nodes[i].name in Names(all)
    {
      assert all[i + 1] == nodes[i];
    }
  }

  /** Each run is as large as its name is frequent. */
  lemma {:induction false} RunSizes(names: seq<Name>, l: nat, k: nat)
    requires SameLength(names, l) && Sorted(names, l) && k < |Runs(names)|
    ensures Runs(names)[k].name in names && Runs(names)[k].size == multiset(names)[Runs(names)[k].name]
    decreases |names|
  {
    var n, rest := FirstRun(names, l);
    if k > 0 {
      RunSizes(rest, l, k - 1);
      assert Runs(names)[k] == Runs(rest)[k - 1];
    }
  }

  /** The runs count all records. */
  lemma {:induction false} RunsTotal(names: seq<Name>)
    ensures Total(Runs(names)) == |names|
    decreases |names|
  {
    if names != [] {
      RunsTotal(names[1 + RunLength(names[1..], names[0])..]);
    }
  }

  // ----- the walks

  /** What the root has after the gather and the sort: the ranks' records, in memcmp order. */
  ghost predicate SortedGather(names: seq<Name>, gathered: seq<Name>, l: nat) {
    && SameLength(names, l) && Sorted(names, l) && multiset(names) == multiset(gathered)
    && forall i :: 0 <= i < |names| ==> Padded(names[i])
  }

  /** One run, found by strcmp: the inner loop of both walks. */
  method WalkRun(names: seq<Name>, from: nat, ghost l: nat) returns (i: nat, nodeSize: nat)
    requires SameLength(names, l) && from < |names| && forall j :: 0 <= j < |names| ==> Padded(names[j])
    ensures from < i <= |names| && i == from + nodeSize
    ensures Runs(names[from..]) == [Node(names[from], nodeSize)] + Runs(names[i..])
  {
    var node := names[from];
    i, nodeSize := from, 0;
    StrEqualIsEqual(node, node);
    while i < |names| && StrEqual(names[i], node)
      invariant from <= i <= |names| && i == from + nodeSize
      invariant RunLength(names[from..], node) == nodeSize + RunLength(names[i..], node)
    {
      StrEqualIsEqual(names[i], node);
      assert names[i..][1..] == names[i + 1..];
      nodeSize, i := nodeSize + 1, i + 1;
    }
    if i < |names| {
      StrEqualIsEqual(names[i], node);
    }
    assert RunLength(names[i..], node) == 0;
    assert names[from..][1..] == names[from + 1..];
    assert names[from..][nodeSize..] == names[i..];
  }

  function FirstNodes(nodes: seq<Node>, most: nat): seq<Node> {
    if |nodes| <= most then nodes else nodes[..most]
  }

  lemma FirstNodesAppend(nodes: seq<Node>, most: nat, node: Node)
    ensures FirstNodes(nodes + [node], most)
         == FirstNodes(nodes, most) + if |FirstNodes(nodes, most)| < most then [node] else []
  {
  }

  lemma Regroup(walked: seq<Node>, node: Node, rest: seq<Node>)
    ensures walked + ([node] + rest) == (walked + [node]) + rest
  {
  }

  /** The printing walk, in terms of the runs: at most eight nodes are listed, all are counted. */
  method PrintRuns(names: seq<Name>, ghost l: nat) returns (listed: seq<Node>, printedNodes: nat)
    requires SameLength(names, l) && forall j :: 0 <= j < |names| ==> Padded(names[j])
    ensures printedNodes == |Runs(names)| && listed == FirstNodes(Runs(names), 8)
  {
    listed, printedNodes := [], 0;
    ghost var walked: seq<Node> := [];
    var i := 0;
    while i < |names|
      invariant 0 <= i <= |names|
      invariant Runs(names) == walked + Runs(names[i..]) && printedNodes == |walked|
      invariant listed == FirstNodes(walked, 8)
      decreases |names| - i
    {
      var next, nodeSize := WalkRun(names, i, l);
      FirstNodesAppend(walked, 8, Node(names[i], nodeSize));
      Regroup(walked, Node(names[i], nodeSize), Runs(names[next..]));
      if |listed| < 8 {
        listed := listed + [Node(names[i], nodeSize)];
      }
      walked := walked + [Node(names[i], nodeSize)];
      printedNodes := printedNodes + 1;
      i := next;
    }
    assert names[i..] == [] && Runs(names) == walked;
  }

  /** The printing walk: what it reports is about the names as gathered, whatever their order. */
  method PrintWalk(names: seq<Name>, ghost gathered: seq<Name>, ghost l: nat)
    returns (listed: seq<Node>, printedNodes: nat)
    requires SortedGather(names, gathered, l)
    ensures printedNodes == |Distinct(gathered)|
    ensures |listed| == if printedNodes <= 8 then printedNodes else 8
    ensures forall k :: 0 <= k < |listed| ==> listed[k].size == multiset(gathered)[listed[k].name] > 0
    ensures forall j, k :: 0 <= j < k < |listed| ==> listed[j].name != listed[k].name
  {
    listed, printedNodes := PrintRuns(names, l);
    RunsAreDistinct(names, l);
    SameDistinct(names, gathered);
    forall k | 0 <= k < |listed|
      ensures listed[k].size == multiset(gathered)[listed[k].name] > 0
    {
      RunSizes(names, l, k);
      assert Runs(names)[k].name in multiset(names);
    }
    RunNamesDiffer(names, l);
  }

  ghost predicate AllDiffer(nodes: seq<Node>) {
    forall j, k :: 0 <= j < k < |nodes| ==> nodes[j].name != nodes[k].name
  }

  lemma DifferCons(node: Node, nodes: seq<Node>)
    requires node.name !in Names(nodes) && AllDiffer(nodes)
    ensures AllDiffer([node] + nodes)
  {
    var all := [node] + nodes;
    forall j, k | 0 <= j < k < |all|
      ensures all[j].name != all[k].name
    {
      assert all[k] == nodes[k - 1] && nodes[k - 1].name in Names(nodes);
    }
  }

  lemma {:induction false} RunNamesDiffer(names: seq<Name>, l: nat)
    requires SameLength(names, l) && Sorted(names, l)
    ensures AllDiffer(Runs(names))
    decreases |names|
  {
    if names != [] {
      var n, rest := FirstRun(names, l);
      RunNamesDiffer(rest, l);
      RunsAreDistinct(rest, l);
      DifferCons(Node(names[0], n), Runs(rest));
    }
  }

  lemma SameDistinct(a: seq<Name>, b: seq<Name>)
    requires multiset(a) == multiset(b)
    ensures Distinct(a) == Distinct(b)
  {
    forall x
      ensures x in Distinct(a) <==> x in Distinct(b)
    {
      assert x in a <==> x in multiset(a);
      assert x in b <==> x in multiset(b);
    }
  }

  datatype Verdict = Accepted | WrongNodeSize(name: Name, size: nat) | WrongNodeCount(count: nat)

  /** The layout is as stated: every node that a name stands for has the stated size, and there are as many nodes as
      stated. What is not stated (not positive) does not matter. */
  predicate LayoutHolds(gathered: seq<Name>, numNodes: int, nodeSize: int) {
    && (nodeSize > 0 ==> forall name :: name in gathered ==> multiset(gathered)[name] == nodeSize)
    && (numNodes > 0 ==> |Distinct(gathered)| == numNodes)
  }

  /** The checking walk, in terms of the runs. */
  method CheckRuns(names: seq<Name>, ghost l: nat, numNodes: int, nodeSize: int) returns (verdict: Verdict)
    requires SameLength(names, l) && forall j :: 0 <= j < |names| ==> Padded(names[j])
    ensures verdict == Accepted <==> (nodeSize > 0 ==> AllOfSize(Runs(names), nodeSize))
                                     && (numNodes > 0 ==> |Runs(names)| == numNodes)
    ensures verdict.WrongNodeSize? ==> 0 < nodeSize != verdict.size && Node(verdict.name, verdict.size) in Runs(names)
    ensures verdict.WrongNodeCount? ==> 0 < numNodes != verdict.count == |Runs(names)|
  {
    var count, i := 0, 0;
    ghost var walked: seq<Node> := [];
    while i < |names|
      invariant 0 <= i <= |names|
      invariant Runs(names) == walked + Runs(names[i..]) && count == |walked|
      invariant nodeSize > 0 ==> AllOfSize(walked, nodeSize)
      decreases |names| - i
    {
      var next, size := WalkRun(names, i, l);
      Regroup(walked, Node(names[i], size), Runs(names[next..]));
      assert Runs(names)[|walked|] == Node(names[i], size);
      count := count + 1;
      if nodeSize > 0 && size != nodeSize {
        return WrongNodeSize(names[i], size);
      }
      walked := walked + [Node(names[i], size)];
      i := next;
    }
    assert names[i..] == [] && Runs(names) == walked;
    if numNodes > 0 && count != numNodes {
      return WrongNodeCount(count);
    }
    return Accepted;
  }

  ghost predicate AllOfSize(nodes: seq<Node>, size: int) {
    forall k :: 0 <= k < |nodes| ==> nodes[k].size == size
  }

  /** The checking walk. Its verdict is about the names as gathered, whatever their order. */
  method CheckWalk(names: seq<Name>, ghost gathered: seq<Name>, ghost l: nat, numNodes: int, nodeSize: int)
    returns (verdict: Verdict)
    requires SortedGather(names, gathered, l)
    ensures verdict == Accepted <==> LayoutHolds(gathered, numNodes, nodeSize)
    ensures verdict.WrongNodeSize? ==> 0 < nodeSize != verdict.size == multiset(gathered)[verdict.name]
    ensures verdict.WrongNodeCount? ==> 0 < numNodes != verdict.count == |Distinct(gathered)|
  {
    verdict := CheckRuns(names, l, numNodes, nodeSize);
    SameDistinct(names, gathered);
    RunsAreDistinct(names, l);
    SizesAreMultiplicities(names, l, nodeSize);
    assert forall name :: name in gathered <==> name in Distinct(names);
    if verdict.WrongNodeSize? {
      var k :| 0 <= k < |Runs(names)| && Runs(names)[k] == Node(verdict.name, verdict.size);
      RunSizes(names, l, k);
    }
  }

  /** Every run has the size exactly if every name has that multiplicity. */
  lemma SizesAreMultiplicities(names: seq<Name>, l: nat, size: int)
    requires SameLength(names, l) && Sorted(names, l)
    ensures AllOfSize(Runs(names), size) <==> forall name :: name in Distinct(names) ==> multiset(names)[name] == size
  {
    RunsAreDistinct(names, l);
    forall k | 0 <= k < |Runs(names)|
      ensures Runs(names)[k].name in Distinct(names)
      ensures Runs(names)[k].size == multiset(names)[Runs(names)[k].name]
    {
      RunSizes(names, l, k);
    }
    forall name | name in Distinct(names)
      ensures exists k :: 0 <= k < |Runs(names)| && Runs(names)[k].name == name
    {
      assert name in Names(Runs(names));
    }
  }

  lemma {:induction false} EqualMultiplicities(m: multiset<Name>, names: set<Name>, size: nat)
    requires forall name :: name in m <==> name in names
    requires forall name :: name in names ==> m[name] == size
    ensures |m| == |names| * size
    decreases names
  {
    if names == {} {
      assert m == multiset{};
    } else {
      var name :| name in names;
      var rest := names - {name};
      EqualMultiplicities(m[name := 0], rest, size);
      assert |names| * size == |rest| * size + size;
    }
  }

  /** A layout that holds with both variables stated accounts for every process. */
  lemma LayoutIsProduct(gathered: seq<Name>, numNodes: nat, nodeSize: nat)
    requires numNodes > 0 && nodeSize > 0 && LayoutHolds(gathered, numNodes, nodeSize)
    ensures |gathered| == numNodes * nodeSize
  {
    EqualMultiplicities(multiset(gathered), Distinct(gathered), nodeSize);
  }
}
