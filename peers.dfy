/**
 * Buddy selection of daemon/daemon.go (`pick2`, `others`, `Members`):
 * which two cluster members a node sends its service definitions to.
 */
module Peers {
  import opened Wrappers
  import opened Text
  import opened Host

  /** Members.Less: strings.Compare(a.Name, b.Name) <= 0. */
  predicate NameLeq(a: Node, b: Node)
  {
    LessEq(a.name, b.name)
  }

  /** Ordered by name (Members.Less holds between every earlier and later element). */
  predicate Sorted(s: seq<Node>)
  {
    forall i, j :: 0 <= i < j < |s| ==> NameLeq(s[i], s[j])
  }

  /** Members that share a name are the same member (repeated entries allowed). */
  predicate NamesIdentify(s: seq<Node>)
  {
    forall x, y :: x in s && y in s && x.name == y.name ==> x == y
  }

  /** No two entries share a name, as in a memberlist member list. */
  predicate UniqueNames(s: seq<Node>)
  {
    forall i, j :: 0 <= i < j < |s| ==> s[i].name != s[j].name
  }

  /** Unique names identify members. */
  lemma UniqueNamesIdentify(s: seq<Node>)
    requires UniqueNames(s)
    ensures NamesIdentify(s)
  {
    forall x, y | x in s && y in s && x.name == y.name ensures x == y {
      var p :| 0 <= p < |s| && s[p] == x;
      var q :| 0 <= q < |s| && s[q] == y;
    }
  }

  // ------------------------------------------------------------- sorting

  lemma SortedCons(x: Node, s: seq<Node>)
    requires Sorted(s)
    requires forall y :: y in s ==> NameLeq(x, y)
    ensures Sorted([x] + s)
  {
    forall i, j | 0 <= i < j < |[x] + s| ensures NameLeq(([x] + s)[i], ([x] + s)[j]) {
      if i == 0 {
        assert ([x] + s)[j] == s[j - 1];
      } else {
        assert ([x] + s)[i] == s[i - 1] && ([x] + s)[j] == s[j - 1];
      }
    }
  }

  lemma HeadBound(x: Node, s: seq<Node>)
    requires Sorted(s) && s != [] && NameLeq(x, s[0])
    ensures forall y :: y in s ==> NameLeq(x, y)
  {
    forall y | y in s ensures NameLeq(x, y) {
      var k :| 0 <= k < |s| && s[k] == y;
      if k > 0 {
        LessEqTransitive(x.name, s[0].name, y.name);
      }
    }
  }

  /** The head of a sorted sequence bounds its tail with a larger element added. */
  lemma TailBound(x: Node, s: seq<Node>, rest: seq<Node>)
    requires Sorted(s) && s != [] && NameLeq(s[0], x)
    requires multiset(rest) == multiset(s[1..]) + multiset{x}
    ensures forall y :: y in rest ==> NameLeq(s[0], y)
  {
    forall y | y in rest ensures NameLeq(s[0], y) {
      assert y in multiset(rest);
      if y != x {
        assert y in multiset(s[1..]);
        var k :| 0 <= k < |s[1..]| && s[1..][k] == y;
        assert s[k + 1] == y;
      }
    }
  }

  /** One step of an insertion sort. */
  function Insert(x: Node, s: seq<Node>): (r: seq<Node>)
    requires Sorted(s)
    ensures |r| == |s| + 1
    ensures Sorted(r) && multiset(r) == multiset(s) + multiset{x}
    decreases |s|
  {
    if s == [] then [x]
    else if NameLeq(x, s[0]) then
      HeadBound(x, s);
      SortedCons(x, s);
      [x] + s
    else
      LessEqTotal(x.name, s[0].name);
      var rest := Insert(x, s[1..]);
      assert s == [s[0]] + s[1..];
      TailBound(x, s, rest);
      SortedCons(s[0], rest);
      [s[0]] + rest
  }

  /** The order sort.Sort(Members(pool)) establishes, computed by insertion. */
  function SortByName(s: seq<Node>): (r: seq<Node>)
    ensures |r| == |s|
    ensures Sorted(r) && multiset(r) == multiset(s)
    decreases |s|
  {
    if s == [] then []
    else
      assert s == [s[0]] + s[1..];
      Insert(s[0], SortByName(s[1..]))
  }

  lemma SortedTail(s: seq<Node>)
    requires Sorted(s) && s != []
    ensures Sorted(s[1..])
  {
    forall i, j | 0 <= i < j < |s[1..]| ensures NameLeq(s[1..][i], s[1..][j]) {
      assert s[1..][i] == s[i + 1] && s[1..][j] == s[j + 1];
    }
  }

  /** The head of a sorted sequence is at most every element. */
  lemma SortedHead(s: seq<Node>, y: Node)
    requires Sorted(s) && y in s
    ensures NameLeq(s[0], y)
  {
    var k :| 0 <= k < |s| && s[k] == y;
    if k == 0 {
      LessEqReflexive(y.name);
    }
  }

  /** Two sorted arrangements of one collection, when names identify members, start alike. */
  lemma SortedHeadsEqual(a: seq<Node>, b: seq<Node>)
    requires a != [] && b != []
    requires Sorted(a) && Sorted(b) && multiset(a) == multiset(b) && NamesIdentify(a)
    ensures a[0] == b[0]
  {
    assert a[0] in multiset(b) && b[0] in multiset(a);
    SortedHead(b, a[0]);
    SortedHead(a, b[0]);
    LessEqAntisymmetric(a[0].name, b[0].name);
  }

  lemma TailMultiset(a: seq<Node>)
    requires a != []
    ensures multiset(a[1..]) == multiset(a) - multiset{a[0]}
  {
    assert a == [a[0]] + a[1..];
    assert multiset(a) == multiset([a[0]]) + multiset(a[1..]);
  }

  lemma TailIdentifies(a: seq<Node>)
    requires a != [] && NamesIdentify(a)
    ensures NamesIdentify(a[1..])
  {
    forall x, y | x in a[1..] && y in a[1..] && x.name == y.name ensures x == y {
      assert x in a && y in a;
    }
  }

  /**
   * When names identify members, a sorted arrangement of a collection is
   * unique: whatever algorithm sorts the pool, the result is SortByName's.
   */
  lemma {:induction false} SortedPermutationUnique(a: seq<Node>, b: seq<Node>)
    requires Sorted(a) && Sorted(b) && multiset(a) == multiset(b)
    requires NamesIdentify(a)
    ensures a == b
    decreases |a|
  {
    assert |a| == |multiset(a)| == |multiset(b)| == |b|;
    if a != [] {
      SortedHeadsEqual(a, b);
      TailMultiset(a);
      TailMultiset(b);
      SortedTail(a);
      SortedTail(b);
      TailIdentifies(a);
      SortedPermutationUnique(a[1..], b[1..]);
      assert a == [a[0]] + a[1..] && b == [b[0]] + b[1..];
    }
  }

  /** Every member twice in a row: [s0, s0, s1, s1, ...]. */
  function Twice(s: seq<Node>): (r: seq<Node>)
    ensures |r| == 2 * |s|
    decreases |s|
  {
    if s == [] then [] else [s[0], s[0]] + Twice(s[1..])
  }

  /** Twice holds each member exactly twice as often as the list does. */
  lemma {:induction false} TwiceMultiset(s: seq<Node>)
    ensures multiset(Twice(s)) == multiset(s) + multiset(s)
    decreases |s|
  {
    if s != [] {
      TwiceMultiset(s[1..]);
      assert s == [s[0]] + s[1..];
    }
  }

  lemma {:induction false} TwiceAt(s: seq<Node>, k: nat)
    requires k < 2 * |s|
    ensures Twice(s)[k] == s[k / 2]
    decreases |s|
  {
    assert Twice(s) == [s[0], s[0]] + Twice(s[1..]);
    if k >= 2 {
      TwiceAt(s[1..], k - 2);
      assert Twice(s)[k] == Twice(s[1..])[k - 2];
      assert (k - 2) / 2 + 1 == k / 2;
      assert s[1..][(k - 2) / 2] == s[k / 2];
    } else {
      assert k / 2 == 0;
    }
  }

  lemma TwiceSorted(s: seq<Node>)
    requires Sorted(s)
    ensures Sorted(Twice(s))
  {
    var t := Twice(s);
    forall i, j | 0 <= i < j < |t| ensures NameLeq(t[i], t[j]) {
      TwiceAt(s, i);
      TwiceAt(s, j);
      if i / 2 == j / 2 {
        LessEqReflexive(t[i].name);
      } else {
        assert i / 2 < j / 2;
      }
    }
  }

  /**
   * When names identify members, the sorted doubled pool of pick2 holds
   * every member twice in a row, in name order.
   */
  lemma DoubledPool(members: seq<Node>)
    requires NamesIdentify(members)
    ensures SortByName(members + members) == Twice(SortByName(members))
  {
    var s := SortByName(members);
    var t := Twice(s);
    TwiceSorted(s);
    TwiceMultiset(s);
    var pool := SortByName(members + members);
    assert multiset(pool) == multiset(members) + multiset(members);
    assert multiset(pool) == multiset(t);
    assert NamesIdentify(pool) by {
      forall x, y | x in pool && y in pool && x.name == y.name ensures x == y {
        assert x in multiset(members + members) && y in multiset(members + members);
        assert x in members && y in members;
      }
    }
    SortedPermutationUnique(pool, t);
  }

  // ------------------------------------------------------------- others

  /** The members not named `name`, in their order. */
  function NotNamed(s: seq<Node>, name: string): (r: seq<Node>)
    ensures forall x :: x in r <==> x in s && x.name != name
    ensures |r| <= |s|
    ensures (exists x :: x in s && x.name == name) ==> |r| < |s|
    decreases |s|
  {
    if s == [] then []
    else
      var last := s[|s| - 1];
      assert s == s[..|s| - 1] + [last];
      assert (exists x :: x in s && x.name == name) && last.name != name ==>
        exists x :: x in s[..|s| - 1] && x.name == name;
      NotNamed(s[..|s| - 1], name) + (if last.name != name then [last] else [])
  }

  lemma NotNamedStep(s: seq<Node>, i: nat, name: string)
    requires i < |s|
    ensures NotNamed(s[..i + 1], name) == NotNamed(s[..i], name) + (if s[i].name != name then [s[i]] else [])
  {
    assert s[..i + 1][..i] == s[..i];
  }

  /** others: every member but the one named `nodeName`. */
  method Others(nodeName: string, members: seq<Node>) returns (ret: seq<Node>)
    ensures ret == NotNamed(members, nodeName)
  {
    ret := [];
    for i := 0 to |members|
      invariant ret == NotNamed(members[..i], nodeName)
    {
      NotNamedStep(members, i, nodeName);
      if members[i].name != nodeName {
        ret := ret + [members[i]];
      }
    }
    assert members[..|members|] == members;
  }

  // ------------------------------------------------------------- pick2

  /** The index of the first member named `name`, or |s| when there is none. */
  function FirstNamed(s: seq<Node>, name: string): (i: nat)
    ensures i <= |s|
    ensures i < |s| ==> s[i].name == name
    ensures forall k :: 0 <= k < i ==> s[k].name != name
    decreases |s|
  {
    if s == [] then 0
    else if s[0].name == name then 0
    else 1 + FirstNamed(s[1..], name)
  }

  /**
   * pick2 as a value: nothing for at most one member, `others` for two or
   * three, and otherwise the two entries after index i of the sorted doubled
   * pool, where i is the node's index in the UNSORTED member list. A node
   * that is not a member is the "Bug in code" panic.
   */
  function Pick2Of(nodeName: string, members: seq<Node>): Result<seq<Node>>
  {
    var l := |members|;
    if l <= 1 then Ok([])
    else if l <= 3 then Ok(NotNamed(members, nodeName))
    else
      var i := FirstNamed(members, nodeName);
      if i == l then Err("Bug in code")
      else
        var pool := SortByName(members + members);
        Ok([pool[i + 1], pool[i + 2]])
  }

  /** The state of the insertion loop when element i has been moved down to position j. */
  ghost predicate Inserting(s: seq<Node>, i: nat, j: nat)
    requires j <= i < |s|
  {
    && (forall k, m :: 0 <= k < m <= i && k != j && m != j ==> NameLeq(s[k], s[m]))
    && (forall m :: j < m <= i ==> NameLeq(s[j], s[m]))
  }

  /** The insertion loop stops where its element belongs: the first i+1 elements are then ordered. */
  lemma InsertionDone(s: seq<Node>, i: nat, j: nat)
    requires j <= i < |s| && Inserting(s, i, j)
    requires j == 0 || !NameLeq(s[j], s[j - 1])
    ensures Sorted(s[..i + 1])
  {
    if j > 0 {
      LessEqTotal(s[j].name, s[j - 1].name);
      forall k | 0 <= k < j - 1 ensures NameLeq(s[k], s[j]) {
        LessEqTransitive(s[k].name, s[j - 1].name, s[j].name);
      }
    }
  }

  /** Swapping the moving element past a larger-or-equal neighbour keeps the loop's state. */
  lemma SwapKeepsInserting(s: seq<Node>, i: nat, j: nat)
    requires 0 < j <= i < |s| && Inserting(s, i, j) && NameLeq(s[j], s[j - 1])
    ensures Inserting(s[j := s[j - 1]][j - 1 := s[j]], i, j - 1)
  {
  }

  /** Exchanging two neighbours rearranges the sequence. */
  lemma SwapPermutes(s: seq<Node>, j: nat)
    requires 0 < j < |s|
    ensures multiset(s[j := s[j - 1]][j - 1 := s[j]]) == multiset(s)
  {
  }

  /** One pass of the outer loop: element i sinks until its left neighbour is not greater. */
  method SinkDown(a: array<Node>, i: nat)
    requires i < a.Length && Sorted(a[..i])
    modifies a
    ensures Sorted(a[..i + 1])
    ensures multiset(a[..]) == multiset(old(a[..]))
  {
    var j := i;
    while j > 0 && NameLeq(a[j], a[j - 1])
      invariant 0 <= j <= i
      invariant multiset(a[..]) == multiset(old(a[..]))
      invariant Inserting(a[..], i, j)
      decreases j
    {
      ghost var s := a[..];
      SwapKeepsInserting(s, i, j);
      a[j], a[j - 1] := a[j - 1], a[j];
      assert a[..] == s[j := s[j - 1]][j - 1 := s[j]];
      SwapPermutes(s, j);
      j := j - 1;
    }
    InsertionDone(a[..], i, j);
    assert a[..i + 1] == a[..][..i + 1];
  }

  /**
   * sort.Sort(Members(pool)), done here by insertion sort: each element is
   * swapped down while Members.Less(j, j-1) holds. Go picks its algorithm by
   * the pool's size, but any sort of the pool gives the same result whenever
   * names identify members (SortedPermutationUnique).
   */
  method SortPool(a: array<Node>)
    modifies a
    ensures Sorted(a[..])
    ensures multiset(a[..]) == multiset(old(a[..]))
  {
    for i := 0 to a.Length
      invariant Sorted(a[..i])
      invariant multiset(a[..]) == multiset(old(a[..]))
    {
      SinkDown(a, i);
    }
    assert a[..] == a[..a.Length];
  }

  /** A rearranged doubled member list identifies members when the list does. */
  lemma PoolIdentifies(members: seq<Node>, pool: seq<Node>)
    requires multiset(pool) == multiset(members + members) && NamesIdentify(members)
    ensures NamesIdentify(pool)
    ensures forall x :: x in pool ==> x in members
  {
    forall x | x in pool ensures x in members {
      assert x in multiset(members + members);
    }
  }

  /** What pick2 returns for a node at index i, from any sorted arrangement of the doubled pool. */
  lemma PoolPick(nodeName: string, members: seq<Node>, pool: seq<Node>, i: nat)
    requires |members| >= 4 && i < |members| && members[i].name == nodeName
    requires forall k :: 0 <= k < i ==> members[k].name != nodeName
    requires Sorted(pool) && multiset(pool) == multiset(members + members)
    ensures |pool| == 2 * |members|
    ensures pool[i + 1] in members && pool[i + 2] in members
    ensures NamesIdentify(members) ==> Pick2Of(nodeName, members) == Ok([pool[i + 1], pool[i + 2]])
  {
    assert |pool| == |multiset(pool)| == |members + members|;
    assert pool[i + 1] in multiset(members + members) && pool[i + 2] in multiset(members + members);
    assert FirstNamed(members, nodeName) == i;
    if NamesIdentify(members) {
      PoolIdentifies(members, pool);
      SortedPermutationUnique(pool, SortByName(members + members));
      Pick2OfAt(nodeName, members, i);
    }
  }

  /** From four members on, a present node's picks are read off the sorted doubled pool. */
  lemma Pick2OfAt(nodeName: string, members: seq<Node>, i: nat)
    requires |members| >= 4 && FirstNamed(members, nodeName) == i < |members|
    ensures |SortByName(members + members)| == 2 * |members|
    ensures Pick2Of(nodeName, members) == Ok([SortByName(members + members)[i + 1], SortByName(members + members)[i + 2]])
  {
  }

  /**
   * pick2: the doubled pool is sorted in place, then the entries after the
   * node's index in the unsorted list are returned. Whatever the sort does
   * with equal names, it returns two members; when names identify members
   * the outcome is Pick2Of's.
   */
  method Pick2(nodeName: string, members: seq<Node>) returns (r: Result<seq<Node>>)
    ensures |members| <= 3 ==> r == Pick2Of(nodeName, members)
    ensures |members| >= 4 ==> (r.Err? <==> forall x :: x in members ==> x.name != nodeName)
    ensures |members| >= 4 && r.Ok? ==> |r.value| == 2 && forall x :: x in r.value ==> x in members
    ensures NamesIdentify(members) ==> r == Pick2Of(nodeName, members)
  {
    var l := |members|;
    if l <= 1 {
      return Ok([]);
    }
    if l <= 3 {
      var o := Others(nodeName, members);
      return Ok(o);
    }
    var doubled := members + members;
    var pool := new Node[|doubled|](k requires 0 <= k < |doubled| => doubled[k]);
    assert pool[..] == doubled;
    SortPool(pool);
    for i := 0 to l
      invariant forall k :: 0 <= k < i ==> members[k].name != nodeName
    {
      if members[i].name == nodeName {
        PoolPick(nodeName, members, pool[..], i);
        return Ok([pool[i + 1], pool[i + 2]]);
      }
    }
    forall x | x in members ensures x.name != nodeName {
      var k :| 0 <= k < l && members[k] == x;
    }
    return Err("Bug in code");
  }

  /**
   * What pick2 promises: buddies are members, at most two of them when the
   * node is a member; with at most three members the node itself is never
   * among them; with four or more it fails exactly when the node is not a
   * member, and otherwise returns two.
   */
  lemma Pick2Contract(nodeName: string, members: seq<Node>)
    ensures Pick2Of(nodeName, members).Ok? ==>
      forall x :: x in Pick2Of(nodeName, members).value ==> x in members
    ensures (exists x :: x in members && x.name == nodeName) ==>
      Pick2Of(nodeName, members).Ok? && |Pick2Of(nodeName, members).value| <= 2
    ensures |members| <= 3 ==>
      Pick2Of(nodeName, members).Ok? && forall x :: x in Pick2Of(nodeName, members).value ==> x.name != nodeName
    ensures |members| >= 4 ==>
      (Pick2Of(nodeName, members).Err? <==> forall x :: x in members ==> x.name != nodeName)
    ensures |members| >= 4 && Pick2Of(nodeName, members).Ok? ==> |Pick2Of(nodeName, members).value| == 2
  {
    var l := |members|;
    if l >= 4 {
      var i := FirstNamed(members, nodeName);
      if i < l {
        var pool := SortByName(members + members);
        assert pool[i + 1] in multiset(members + members);
        assert pool[i + 2] in multiset(members + members);
        assert pool[i + 1] in members + members && pool[i + 2] in members + members;
        assert pool[i + 1] in members && pool[i + 2] in members;
        assert Pick2Of(nodeName, members) == Ok([pool[i + 1], pool[i + 2]]);
        assert members[i] in members;
      } else {
        forall x | x in members ensures x.name != nodeName {
          var k :| 0 <= k < l && members[k] == x;
        }
      }
    }
  }

  /**
   * With names identifying members, pick2 returns the members at positions
   * (i+1)/2 and (i+2)/2 of the name order, i being the node's index in the
   * unsorted list.
   */
  lemma Pick2Formula(nodeName: string, members: seq<Node>)
    requires |members| >= 4 && NamesIdentify(members)
    requires FirstNamed(members, nodeName) < |members|
    ensures var i := FirstNamed(members, nodeName);
            var s := SortByName(members);
            Pick2Of(nodeName, members) == Ok([s[(i + 1) / 2], s[(i + 2) / 2]])
  {
    var i := FirstNamed(members, nodeName);
    var s := SortByName(members);
    var pool := SortByName(members + members);
    assert Pick2Of(nodeName, members) == Ok([pool[i + 1], pool[i + 2]]);
    DoubledPool(members);
    TwiceAt(s, i + 1);
    TwiceAt(s, i + 2);
  }

  /**
   * Finding: for members already in name order with unique names, the first
   * member picks ITSELF as its first buddy.
   */
  lemma Pick2PicksItself(members: seq<Node>)
    requires |members| >= 4 && Sorted(members) && UniqueNames(members)
    ensures Pick2Of(members[0].name, members) == Ok([members[0], members[1]])
  {
    UniqueNamesIdentify(members);
    assert FirstNamed(members, members[0].name) == 0;
    Pick2Formula(members[0].name, members);
    SortedPermutationUnique(members, SortByName(members));
    assert (0 + 1) / 2 == 0 && (0 + 2) / 2 == 1;
  }

  /** Finding: a node at an odd index of the member list gets the same buddy twice. */
  lemma Pick2RepeatsBuddy(nodeName: string, members: seq<Node>)
    requires |members| >= 4 && NamesIdentify(members)
    requires FirstNamed(members, nodeName) < |members| && FirstNamed(members, nodeName) % 2 == 1
    ensures Pick2Of(nodeName, members).Ok?
    ensures Pick2Of(nodeName, members).value[0] == Pick2Of(nodeName, members).value[1]
  {
    var i := FirstNamed(members, nodeName);
    assert (i + 1) / 2 == (i + 2) / 2;
    Pick2Formula(nodeName, members);
  }

  // ------------------------------------------------------------- corrected selection

  lemma MultisetTwice(s: seq<Node>, p: nat, q: nat)
    requires p < q < |s| && s[p] == s[q]
    ensures multiset(s)[s[p]] >= 2
  {
    assert s == s[..q] + s[q..];
    assert s[p] in multiset(s[..q]) by { assert s[..q][p] == s[p]; }
    assert s[q] in multiset(s[q..]) by { assert s[q..][0] == s[q]; }
  }

  lemma {:induction false} TwiceInMultiset(s: seq<Node>, x: Node)
    requires multiset(s)[x] >= 2
    ensures exists p, q :: 0 <= p < q < |s| && s[p] == x && s[q] == x
    decreases |s|
  {
    assert s == [s[0]] + s[1..];
    if s[0] == x {
      assert x in multiset(s[1..]);
      var q :| 0 <= q < |s[1..]| && s[1..][q] == x;
      assert s[q + 1] == x;
    } else {
      TwiceInMultiset(s[1..], x);
      var p, q :| 0 <= p < q < |s[1..]| && s[1..][p] == x && s[1..][q] == x;
      assert s[p + 1] == x && s[q + 1] == x;
    }
  }

  /** Unique names survive rearrangement. */
  lemma UniqueNamesPermutation(a: seq<Node>, b: seq<Node>)
    requires multiset(a) == multiset(b) && UniqueNames(a)
    ensures UniqueNames(b)
  {
    forall i, j | 0 <= i < j < |b| ensures b[i].name != b[j].name {
      if b[i].name == b[j].name {
        assert b[i] in multiset(a) && b[j] in multiset(a);
        var p :| 0 <= p < |a| && a[p] == b[i];
        var q :| 0 <= q < |a| && a[q] == b[j];
        if p == q {
          MultisetTwice(b, i, j);
          TwiceInMultiset(a, b[i]);
        }
      }
    }
  }

  /**
   * The selection pick2 evidently intends: the node's two successors on the
   * ring of members in name order.
   */
  function Buddies(nodeName: string, members: seq<Node>): Result<seq<Node>>
  {
    var l := |members|;
    if l <= 1 then Ok([])
    else if l <= 3 then Ok(NotNamed(members, nodeName))
    else
      var s := SortByName(members);
      var j := FirstNamed(s, nodeName);
      if j == l then Err("Bug in code")
      else Ok([s[Succ(j, l)], s[Succ(Succ(j, l), l)]])
  }

  /** The next position on a ring of `l` positions. */
  function Succ(k: nat, l: nat): (r: nat)
    requires k < l
    ensures r < l
    ensures k + 1 < l ==> r == k + 1
    ensures k + 1 == l ==> r == 0
  {
    if k + 1 < l then k + 1 else 0
  }

  /**
   * The corrected selection: with unique names and four or more members, a
   * member gets two different buddies, both members, neither itself.
   */
  lemma BuddiesAreOthers(nodeName: string, members: seq<Node>)
    requires |members| >= 4 && UniqueNames(members)
    requires exists x :: x in members && x.name == nodeName
    ensures Buddies(nodeName, members).Ok?
    ensures var r := Buddies(nodeName, members).value;
            |r| == 2 && r[0] != r[1] &&
            forall x :: x in r ==> x in members && x.name != nodeName
  {
    var l := |members|;
    var s := SortByName(members);
    UniqueNamesPermutation(members, s);
    var x :| x in members && x.name == nodeName;
    assert x in multiset(s);
    var j := FirstNamed(s, nodeName);
    var a, b := Succ(j, l), Succ(Succ(j, l), l);
    assert Buddies(nodeName, members) == Ok([s[a], s[b]]);
    DistinctPositions(s, a, j);
    DistinctPositions(s, b, j);
    DistinctPositions(s, a, b);
    assert s[a] in multiset(members) && s[b] in multiset(members);
  }

  lemma DistinctPositions(s: seq<Node>, p: nat, q: nat)
    requires UniqueNames(s) && p < |s| && q < |s| && p != q
    ensures s[p].name != s[q].name && s[p] != s[q]
  {
    if p > q {
      assert s[q].name != s[p].name;
    }
  }
}
