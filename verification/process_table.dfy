/** The managed-process table of the supervisor daemon: a singly-linked list of
    heap-allocated records with a `head` pointer (`config.process_list`) and a
    `tail` pointer (`config.process_list_end`).

    The heap is modelled as a finite map from addresses to nodes, so pointer
    identity, unlinking and freeing are all explicit. The ordered sequence of
    addresses reachable from `head` is the abstraction; `Valid` ties the two. */
module ProcessTable {
  import opened CTypes

  /** Address of a heap-allocated `pm_process`; `Option<Ref>` is a nullable pointer. */
  type Ref = nat

  /** The payload of one `pm_process`. */
  datatype ProcessRecord = ProcessRecord(
    pid: int,
    maxRetries: int,
    programName: CString,
    argv: CVector,
    stdoutFile: Option<CString>)

  /** One heap cell: the record and its `next` pointer. */
  datatype Node = Node(rec: ProcessRecord, next: Option<Ref>)

  /** The heap, the two list-end pointers, and the first address the
      allocator has never handed out. */
  datatype Table = Table(heap: map<Ref, Node>, head: Option<Ref>, tail: Option<Ref>, brk: nat)

  /** The empty table the daemon starts with. */
  const Empty: Table := Table(map[], None, None, 0)

  // ---------------------------------------------------------------------------
  // Sequence vocabulary
  // ---------------------------------------------------------------------------

  predicate Distinct(s: seq<Ref>) {
    forall i, j :: 0 <= i < j < |s| ==> s[i] != s[j]
  }

  function First(s: seq<Ref>): Option<Ref> {
    if |s| == 0 then None else Some(s[0])
  }

  function Last(s: seq<Ref>): Option<Ref> {
    if |s| == 0 then None else Some(s[|s| - 1])
  }

  /** The pointer that follows position `i` in the list `s`. */
  function Successor(s: seq<Ref>, i: nat): Option<Ref> {
    if i + 1 < |s| then Some(s[i + 1]) else None
  }

  /** The pointer that precedes position `i` in the list `s`. */
  function Predecessor(s: seq<Ref>, i: nat): Option<Ref>
    requires i <= |s|
  {
    if i == 0 then None else Some(s[i - 1])
  }

  /** Position of `x` in `s`. */
  function IndexOf(s: seq<Ref>, x: Ref): (k: nat)
    requires x in s
    ensures k < |s| && s[k] == x && x !in s[..k]
  {
    if s[0] == x then 0 else 1 + IndexOf(s[1..], x)
  }

  /** `s` with the element at position `k` deleted. */
  function DeleteAt<T>(s: seq<T>, k: nat): (r: seq<T>)
    requires k < |s|
    ensures |r| == |s| - 1
    ensures forall i :: 0 <= i < |r| ==> r[i] == (if i < k then s[i] else s[i + 1])
  {
    s[..k] + s[k + 1..]
  }

  /** `s` with the element `x` deleted (the identity when `x` is absent). */
  function Without(s: seq<Ref>, x: Ref): (r: seq<Ref>)
    ensures x !in s ==> r == s
    ensures x in s ==> |r| == |s| - 1
  {
    if x in s then DeleteAt(s, IndexOf(s, x)) else s
  }

  // ---------------------------------------------------------------------------
  // The representation invariant and the abstraction
  // ---------------------------------------------------------------------------

  /** `s` is the list stored in `t`: the allocated nodes are exactly the
      elements of `s`, without repetition; `head` is the first and `tail` the
      last of them (both NULL when `s` is empty); every node links to its
      successor in `s` and the last node's `next` is NULL. */
  ghost predicate Valid(t: Table, s: seq<Ref>) {
    && Distinct(s)
    && (forall r :: r in t.heap <==> r in s)
    && (forall r :: r in t.heap ==> r < t.brk)
    && t.head == First(s)
    && t.tail == Last(s)
    && Links(t, s)
  }

  /** Every node of `s` links to the node after it, and the last one to NULL. */
  ghost predicate Links(t: Table, s: seq<Ref>)
    requires forall i :: 0 <= i < |s| ==> s[i] in t.heap
  {
    && (forall i, j {:trigger t.heap[s[i]], s[j]} ::
          0 <= i && j == i + 1 && j < |s| ==> t.heap[s[i]].next == Some(s[j]))
    && (|s| > 0 ==> t.heap[s[|s| - 1]].next == None)
  }

  /** The link of the node at position `i`. */
  lemma NextOf(t: Table, s: seq<Ref>, i: nat)
    requires Valid(t, s) && i < |s|
    ensures t.heap[s[i]].next == Successor(s, i)
  {
  }

  /** `Links` from the link of every node. */
  lemma LinksFromNext(t: Table, s: seq<Ref>)
    requires forall i :: 0 <= i < |s| ==> s[i] in t.heap
    requires forall i {:trigger t.heap[s[i]]} :: 0 <= i < |s| ==> t.heap[s[i]].next == Successor(s, i)
    ensures Links(t, s)
  {
  }

  /** The records of `t` in list order. */
  function Records(t: Table, s: seq<Ref>): (rs: seq<ProcessRecord>)
    requires forall r :: r in s ==> r in t.heap
    ensures |rs| == |s|
  {
    seq(|s|, i requires 0 <= i < |s| => t.heap[s[i]].rec)
  }

  /** The pointer reached from `start` after following `k` `next` links
      (NULL once the walk falls off the list). */
  function Follow(heap: map<Ref, Node>, start: Option<Ref>, k: nat): (r: Option<Ref>)
    ensures k == 0 || start.None? ==> r == start
    decreases k
  {
    if k == 0 || start.None? || start.value !in heap then start
    else Follow(heap, heap[start.value].next, k - 1)
  }

  lemma {:induction false} FollowFrom(t: Table, s: seq<Ref>, i: nat, k: nat)
    requires Valid(t, s)
    requires i < |s| && i + k <= |s|
    decreases k
    ensures Follow(t.heap, Some(s[i]), k) == (if i + k < |s| then Some(s[i + k]) else None)
  {
    if k > 0 {
      NextOf(t, s, i);
      if i + 1 < |s| {
        FollowFrom(t, s, i + 1, k - 1);
      }
    }
  }

  /** The pointers reachable from `head` are exactly the abstract list, in
      order: the `k`-th step lands on `s[k]`, step `|s|` lands on NULL, and
      `tail` is the last node reachable from `head`. */
  lemma ReachableFromHead(t: Table, s: seq<Ref>)
    requires Valid(t, s)
    ensures t.head.None? <==> t.tail.None?
    ensures forall k :: 0 <= k < |s| ==> Follow(t.heap, t.head, k) == Some(s[k])
    ensures Follow(t.heap, t.head, |s|) == None
    ensures |s| > 0 ==> Follow(t.heap, t.head, |s| - 1) == t.tail
  {
    forall k | 0 <= k <= |s|
      ensures Follow(t.heap, t.head, k) == (if k < |s| then Some(s[k]) else None)
    {
      if |s| > 0 {
        FollowFrom(t, s, 0, k);
      }
    }
  }

  /** The pointers alone determine the abstract list: two sequences that are
      both valid for the same table are equal. */
  lemma AbstractionUnique(t: Table, s1: seq<Ref>, s2: seq<Ref>)
    requires Valid(t, s1) && Valid(t, s2)
    ensures s1 == s2
  {
    ReachableFromHead(t, s1);
    ReachableFromHead(t, s2);
    assert forall k :: 0 <= k < |s1| ==> s1[k] == s2[k] by {
      forall k | 0 <= k < |s1|
        ensures s1[k] == s2[k]
      {
        assert Follow(t.heap, t.head, k) == Some(s1[k]);
        assert Follow(t.heap, t.head, k) == Some(s2[k]);
      }
    }
  }

  /** The table the daemon starts with, no list at all, is the empty list. */
  lemma EmptyIsValid()
    ensures Valid(Empty, [])
    ensures forall s :: Valid(Empty, s) ==> s == []
  {
  }

  // ---------------------------------------------------------------------------
  // add_process
  // ---------------------------------------------------------------------------

  /** A `char **` vector that contains a NULL slot. */
  predicate NullTerminated(v: CVector) {
    exists k :: 0 <= k < |v| && v[k].None?
  }

  /** `argc`: the number of strings before the first NULL slot. */
  function ArgCount(v: CVector): (n: nat)
    requires NullTerminated(v)
    ensures n < |v| && v[n].None?
    ensures forall i :: 0 <= i < n ==> v[i].Some?
  {
    if v[0].None? then 0
    else
      assert NullTerminated(v[1..]) by {
        var k :| 0 <= k < |v| && v[k].None?;
        assert v[1..][k - 1].None?;
      }
      1 + ArgCount(v[1..])
  }

  /** Every string of the vector before its first NULL is a C string: it
      holds no NUL, so `strcpy` copies all of it. */
  predicate ArgsNulFree(v: CVector)
    requires NullTerminated(v)
  {
    forall i :: 0 <= i < ArgCount(v) ==> NUL !in v[i].value
  }

  /** Deep copy of a NULL-terminated vector: `argc + 1` slots, the first
      `argc` copied element by element, the last one NULL. */
  method CopyArgv(v: CVector) returns (copy: CVector)
    requires NullTerminated(v) && ArgsNulFree(v)
    ensures |copy| == ArgCount(v) + 1
    ensures copy[ArgCount(v)] == None
    ensures forall i :: 0 <= i < ArgCount(v) ==> copy[i] == v[i] && copy[i].Some?
  {
    var argc := 0;
    while v[argc].Some?
      invariant 0 <= argc <= ArgCount(v)
      decreases ArgCount(v) - argc
    {
      argc := argc + 1;
    }
    copy := [];
    var i := 0;
    while i < argc
      invariant 0 <= i <= argc
      invariant |copy| == i
      invariant forall j :: 0 <= j < i ==> copy[j] == v[j]
    {
      copy := copy + [v[i]];
      i := i + 1;
    }
    copy := copy + [None];
  }

  /** Builds a record holding `pid`, `maxRetries` and copies of the strings,
      and appends it at the tail of the list. */
  method AddProcess(t: Table, ghost s: seq<Ref>, pid: int, program: CString, argv: CVector,
                    stdoutFile: Option<CString>, maxRetries: int)
    returns (t': Table, p: Ref)
    requires Valid(t, s)
    requires NUL !in program
    requires NullTerminated(argv) && ArgsNulFree(argv)
    requires stdoutFile.Some? ==> NUL !in stdoutFile.value
    ensures p !in s && p !in t.heap
    ensures Valid(t', s + [p])
    ensures Records(t', s + [p]) == Records(t, s) + [t'.heap[p].rec]
    ensures t'.heap[p].rec.pid == pid && t'.heap[p].rec.maxRetries == maxRetries
    ensures t'.heap[p].rec.programName == program
    ensures t'.heap[p].rec.stdoutFile == stdoutFile
    ensures |t'.heap[p].rec.argv| == ArgCount(argv) + 1
    ensures t'.heap[p].rec.argv[ArgCount(argv)] == None
    ensures forall i :: 0 <= i < ArgCount(argv) ==> t'.heap[p].rec.argv[i] == argv[i]
    ensures forall r :: r in t.heap ==> r in t'.heap && t'.heap[r].rec == t.heap[r].rec
    ensures t.tail.None? ==> t'.head == Some(p) && t'.tail == Some(p)
    ensures t.tail.Some? ==> t'.head == t.head && t'.tail == Some(p)
                             && t'.heap[t.tail.value].next == Some(p)
  {
    var copy := CopyArgv(argv);
    var rec := ProcessRecord(pid, maxRetries, program, copy, stdoutFile);
    p := t.brk;
    t' := Link(t, rec);
    LinkValid(t, s, rec);
  }

  /** Places `rec` in a fresh node at address `brk` and links it after the
      tail, or makes it the whole list when the tail is NULL. */
  function Link(t: Table, rec: ProcessRecord): (t': Table)
    requires t.tail.Some? ==> t.tail.value in t.heap
    ensures t'.brk == t.brk + 1 && t'.tail == Some(t.brk)
    ensures t'.heap.Keys == t.heap.Keys + {t.brk}
    ensures t.brk !in t.heap ==> t'.heap[t.brk] == Node(rec, None)
  {
    var p := t.brk;
    var heap := t.heap[p := Node(rec, None)];
    if t.tail.None? then Table(heap, Some(p), Some(p), t.brk + 1)
    else
      var last := t.tail.value;
      Table(heap[last := heap[last].(next := Some(p))], t.head, Some(p), t.brk + 1)
  }

  lemma LinkValid(t: Table, s: seq<Ref>, rec: ProcessRecord)
    requires Valid(t, s)
    ensures t.brk !in s
    ensures Valid(Link(t, rec), s + [t.brk])
    ensures Records(Link(t, rec), s + [t.brk]) == Records(t, s) + [rec]
  {
    assert t.brk !in t.heap;
    LinkKeepsDistinct(s, t.brk);
    LinkNodes(t, s, rec);
    LinkEnds(t, s, rec);
    LinkLinks(t, s, rec);
    LinksFromNext(Link(t, rec), s + [t.brk]);
    LinkRecords(t, s, rec);
  }

  lemma LinkKeepsDistinct(s: seq<Ref>, p: Ref)
    requires Distinct(s) && p !in s
    ensures Distinct(s + [p])
  {
    var s' := s + [p];
    forall i, j | 0 <= i < j < |s'| ensures s'[i] != s'[j] {
      if j < |s| {
        assert s'[i] == s[i] && s'[j] == s[j];
      } else {
        assert s'[i] == s[i];
      }
    }
  }

  lemma LinkNodes(t: Table, s: seq<Ref>, rec: ProcessRecord)
    requires Valid(t, s)
    ensures var t' := Link(t, rec);
            (forall r :: r in t'.heap <==> r in s + [t.brk])
            && (forall r :: r in t'.heap ==> r < t'.brk)
  {
    var s' := s + [t.brk];
    forall r ensures r in s' <==> r in s || r == t.brk {
    }
  }

  lemma LinkEnds(t: Table, s: seq<Ref>, rec: ProcessRecord)
    requires Valid(t, s)
    ensures Link(t, rec).head == First(s + [t.brk])
    ensures Link(t, rec).tail == Last(s + [t.brk])
  {
  }

  lemma LinkLinks(t: Table, s: seq<Ref>, rec: ProcessRecord)
    requires Valid(t, s)
    ensures var t' := Link(t, rec);
            var s' := s + [t.brk];
            forall i :: 0 <= i < |s'| ==> s'[i] in t'.heap && t'.heap[s'[i]].next == Successor(s', i)
  {
    var t' := Link(t, rec);
    var s' := s + [t.brk];
    assert t.brk !in t.heap;
    forall i | 0 <= i < |s'|
      ensures s'[i] in t'.heap && t'.heap[s'[i]].next == Successor(s', i)
    {
      if i < |s| {
        assert s'[i] == s[i];
        assert s[i] != t.brk;
        NextOf(t, s, i);
      }
    }
  }

  lemma LinkRecords(t: Table, s: seq<Ref>, rec: ProcessRecord)
    requires Valid(t, s)
    ensures var t' := Link(t, rec);
            (forall r :: r in s + [t.brk] ==> r in t'.heap)
            && Records(t', s + [t.brk]) == Records(t, s) + [rec]
  {
    var t' := Link(t, rec);
    var s' := s + [t.brk];
    assert t.brk !in t.heap;
    assert forall r :: r in s' ==> r in t'.heap by {
      forall r | r in s' ensures r in t'.heap {
        assert r in s || r == t.brk;
      }
    }
    var a := Records(t', s');
    var b := Records(t, s) + [rec];
    assert |a| == |b|;
    forall i | 0 <= i < |a| ensures a[i] == b[i] {
      if i < |s| {
        assert s'[i] == s[i] && s[i] != t.brk;
      }
    }
  }

  // ---------------------------------------------------------------------------
  // find_process_with_pid
  // ---------------------------------------------------------------------------

  /** Reference definition of the lookup on the abstract list: the position of
      the first record carrying `pid`. */
  function FirstWithPid(rs: seq<ProcessRecord>, pid: int): (k: Option<nat>)
    ensures k.None? <==> forall i :: 0 <= i < |rs| ==> rs[i].pid != pid
    ensures k.Some? ==> k.value < |rs| && rs[k.value].pid == pid
                        && forall i :: 0 <= i < k.value ==> rs[i].pid != pid
  {
    if |rs| == 0 then None
    else if rs[0].pid == pid then Some(0)
    else match FirstWithPid(rs[1..], pid)
      case None => None
      case Some(k) => Some(k + 1)
  }

  /** Linear scan from `head`: the first node in list order whose pid equals
      `pid`, or NULL when none does. The table is a value, so the scan leaves
      it unchanged by construction. */
  method FindProcessWithPid(t: Table, ghost s: seq<Ref>, pid: int) returns (r: Option<Ref>)
    requires Valid(t, s)
    ensures r.None? <==> FirstWithPid(Records(t, s), pid).None?
    ensures r.Some? ==> r == Some(s[FirstWithPid(Records(t, s), pid).value])
  {
    var curr := t.head;
    ghost var i := 0;
    while curr.Some?
      invariant 0 <= i <= |s|
      invariant curr == (if i < |s| then Some(s[i]) else None)
      invariant forall j :: 0 <= j < i ==> t.heap[s[j]].rec.pid != pid
      decreases |s| - i
    {
      if t.heap[curr.value].rec.pid == pid {
        ghost var rs := Records(t, s);
        assert rs[i].pid == pid;
        return curr;
      }
      NextOf(t, s, i);
      curr := t.heap[curr.value].next;
      i := i + 1;
    }
    return None;
  }

  // ---------------------------------------------------------------------------
  // remove_process_from_list
  // ---------------------------------------------------------------------------

  /** Unlinks node `c` whose predecessor is `prev` (NULL for the head): head
      and tail are moved off `c`, the predecessor is linked past it, and the
      node is freed. */
  function Unlink(t: Table, prev: Option<Ref>, c: Ref): (t': Table)
    requires c in t.heap
    requires prev.Some? ==> prev.value in t.heap
    ensures t'.heap.Keys == t.heap.Keys - {c}
    ensures forall r :: r in t'.heap ==> t'.heap[r].rec == t.heap[r].rec
  {
    var succ := t.heap[c].next;
    var head := if t.head == Some(c) then succ else t.head;
    var tail := if t.tail == Some(c) then prev else t.tail;
    var heap := if prev.Some? then t.heap[prev.value := t.heap[prev.value].(next := succ)] else t.heap;
    Table(heap - {c}, head, tail, t.brk)
  }

  /** Unlinking the node at position `i` of a valid list leaves a valid list
      of the remaining nodes, in the same order. */
  lemma UnlinkValid(t: Table, s: seq<Ref>, i: nat)
    requires Valid(t, s)
    requires i < |s|
    ensures Valid(Unlink(t, Predecessor(s, i), s[i]), DeleteAt(s, i))
  {
    var t' := Unlink(t, Predecessor(s, i), s[i]);
    var s' := DeleteAt(s, i);
    UnlinkKeepsDistinct(s, i);
    UnlinkKeepsNodes(t, s, i);
    UnlinkKeepsEnds(t, s, i);
    UnlinkKeepsLinks(t, s, i);
  }

  lemma UnlinkKeepsLinks(t: Table, s: seq<Ref>, i: nat)
    requires Valid(t, s)
    requires i < |s|
    ensures var t' := Unlink(t, Predecessor(s, i), s[i]);
            var s' := DeleteAt(s, i);
            (forall k :: 0 <= k < |s'| ==> s'[k] in t'.heap) && Links(t', s')
  {
    var t' := Unlink(t, Predecessor(s, i), s[i]);
    var s' := DeleteAt(s, i);
    forall k | 0 <= k < |s'|
      ensures s'[k] in t'.heap && t'.heap[s'[k]].next == Successor(s', k)
    {
      UnlinkKeepsLink(t, s, i, k);
    }
    LinksFromNext(t', s');
  }

  /** Unlinking position `i` deletes exactly the `i`-th record from the
      abstract sequence of records. */
  lemma UnlinkRecords(t: Table, s: seq<Ref>, i: nat)
    requires Valid(t, s)
    requires i < |s|
    ensures var t' := Unlink(t, Predecessor(s, i), s[i]);
            (forall r :: r in DeleteAt(s, i) ==> r in t'.heap)
            && Records(t', DeleteAt(s, i)) == DeleteAt(Records(t, s), i)
  {
    var t' := Unlink(t, Predecessor(s, i), s[i]);
    UnlinkKeepsNodes(t, s, i);
    RecordsDeleteAt(t, s, i);
    SameRecords(t, t', DeleteAt(s, i));
  }

  lemma RecordsDeleteAt(t: Table, s: seq<Ref>, i: nat)
    requires forall r :: r in s ==> r in t.heap
    requires i < |s|
    ensures forall r :: r in DeleteAt(s, i) ==> r in t.heap
    ensures Records(t, DeleteAt(s, i)) == DeleteAt(Records(t, s), i)
  {
    var s' := DeleteAt(s, i);
    forall r | r in s' ensures r in t.heap {
      var k :| 0 <= k < |s'| && s'[k] == r;
      assert s[if k < i then k else k + 1] == r;
    }
    var a := Records(t, s');
    var b := DeleteAt(Records(t, s), i);
    forall k | 0 <= k < |a| ensures a[k] == b[k] {
      assert s'[k] == s[if k < i then k else k + 1];
    }
  }

  /** Two heaps that agree on the records of the nodes of `s` give the same
      abstract sequence of records. */
  lemma SameRecords(t: Table, t': Table, s: seq<Ref>)
    requires forall r :: r in s ==> r in t'.heap
    requires forall r :: r in t'.heap ==> r in t.heap && t'.heap[r].rec == t.heap[r].rec
    ensures forall r :: r in s ==> r in t.heap
    ensures Records(t', s) == Records(t, s)
  {
  }

  lemma UnlinkKeepsDistinct(s: seq<Ref>, i: nat)
    requires Distinct(s) && i < |s|
    ensures Distinct(DeleteAt(s, i))
  {
    var s' := DeleteAt(s, i);
    forall a, b | 0 <= a < b < |s'| ensures s'[a] != s'[b] {
      assert s'[a] == s[if a < i then a else a + 1];
      assert s'[b] == s[if b < i then b else b + 1];
    }
  }

  lemma UnlinkKeepsNodes(t: Table, s: seq<Ref>, i: nat)
    requires Valid(t, s) && i < |s|
    ensures var t' := Unlink(t, Predecessor(s, i), s[i]);
            (forall r :: r in t'.heap <==> r in DeleteAt(s, i))
            && (forall r :: r in t'.heap ==> r < t'.brk)
  {
    DeleteAtMembers(s, i);
  }

  /** Deleting position `i` of a list without repetitions removes exactly
      the element `s[i]`. */
  lemma DeleteAtMembers(s: seq<Ref>, i: nat)
    requires Distinct(s) && i < |s|
    ensures forall r :: r in DeleteAt(s, i) <==> r in s && r != s[i]
  {
    var s' := DeleteAt(s, i);
    forall r ensures r in s' <==> r in s && r != s[i] {
      if r in s && r != s[i] {
        var k :| 0 <= k < |s| && s[k] == r;
        assert s'[if k < i then k else k - 1] == r;
      }
      if r in s' {
        var k :| 0 <= k < |s'| && s'[k] == r;
        assert s[if k < i then k else k + 1] == r;
      }
    }
  }

  lemma UnlinkKeepsEnds(t: Table, s: seq<Ref>, i: nat)
    requires Valid(t, s) && i < |s|
    ensures var t' := Unlink(t, Predecessor(s, i), s[i]);
            t'.head == First(DeleteAt(s, i)) && t'.tail == Last(DeleteAt(s, i))
  {
    NextOf(t, s, i);
    if i > 0 { assert s[0] != s[i]; }
    if i < |s| - 1 { assert s[|s| - 1] != s[i]; }
  }

  /** After unlinking position `i`, the node at position `k` of the shortened
      list still points at its successor there. */
  lemma UnlinkKeepsLink(t: Table, s: seq<Ref>, i: nat, k: nat)
    requires Valid(t, s)
    requires i < |s| && k + 1 < |s|
    ensures var t' := Unlink(t, Predecessor(s, i), s[i]);
            var s' := DeleteAt(s, i);
            s'[k] in t'.heap && t'.heap[s'[k]].next == Successor(s', k)
  {
    var prev := Predecessor(s, i);
    var t' := Unlink(t, prev, s[i]);
    var s' := DeleteAt(s, i);
    var succ := t.heap[s[i]].next;
    NextOf(t, s, i);
    if k + 1 < i {
      assert s'[k] == s[k] && s'[k + 1] == s[k + 1];
      assert s[k] != s[i - 1] && s[k] != s[i];
      assert t'.heap[s[k]] == t.heap[s[k]];
      NextOf(t, s, k);
    } else if k + 1 == i {
      assert s'[k] == s[k] && prev == Some(s[k]);
      assert t'.heap[s[k]].next == succ;
    } else {
      assert s'[k] == s[k + 1];
      assert s[k + 1] != s[i];
      assert i > 0 ==> s[k + 1] != s[i - 1];
      assert t'.heap[s[k + 1]] == t.heap[s[k + 1]];
      NextOf(t, s, k + 1);
    }
  }

  /** Searches the list for the node `process` by pointer identity; when it is
      present it is unlinked, freed and `true` is reported, otherwise the
      table is returned as it was with `false`. */
  method RemoveProcessFromList(t: Table, ghost s: seq<Ref>, process: Ref) returns (t': Table, removed: bool)
    requires Valid(t, s)
    ensures removed <==> process in s
    ensures !removed ==> t' == t
    ensures Valid(t', Without(s, process))
    ensures process !in t'.heap
    ensures forall r :: r in t'.heap ==> r in t.heap && t'.heap[r].rec == t.heap[r].rec
    ensures removed ==> Records(t', Without(s, process)) == DeleteAt(Records(t, s), IndexOf(s, process))
    ensures removed ==> t'.head == (if t.head == Some(process) then Successor(s, 0) else t.head)
    ensures removed ==> t'.tail == (if t.tail == Some(process) then Predecessor(s, |s| - 1) else t.tail)
  {
    var prev: Option<Ref> := None;
    var curr := t.head;
    ghost var i := 0;
    while curr.Some?
      invariant 0 <= i <= |s|
      invariant curr == (if i < |s| then Some(s[i]) else None)
      invariant prev == Predecessor(s, i)
      invariant process !in s[..i]
      decreases |s| - i
    {
      var c := curr.value;
      if c == process {
        t' := Unlink(t, prev, c);
        RemoveAt(t, s, i);
        return t', true;
      }
      NextOf(t, s, i);
      assert s[..i + 1] == s[..i] + [s[i]];
      prev := curr;
      curr := t.heap[c].next;
      i := i + 1;
    }
    assert s[..i] == s;
    return t, false;
  }

  /** Everything `RemoveProcessFromList` promises when the node is found at
      position `i`. */
  lemma RemoveAt(t: Table, s: seq<Ref>, i: nat)
    requires Valid(t, s)
    requires i < |s|
    ensures var t' := Unlink(t, Predecessor(s, i), s[i]);
            && IndexOf(s, s[i]) == i
            && Without(s, s[i]) == DeleteAt(s, i)
            && Valid(t', DeleteAt(s, i))
            && s[i] !in t'.heap
            && (forall r :: r in t'.heap ==> r in t.heap && t'.heap[r].rec == t.heap[r].rec)
            && Records(t', DeleteAt(s, i)) == DeleteAt(Records(t, s), i)
            && t'.head == (if t.head == Some(s[i]) then Successor(s, 0) else t.head)
            && t'.tail == (if t.tail == Some(s[i]) then Predecessor(s, |s| - 1) else t.tail)
  {
    DistinctIndex(s, IndexOf(s, s[i]), i);
    UnlinkValid(t, s, i);
    UnlinkRecords(t, s, i);
    NextOf(t, s, i);
  }

  lemma DistinctIndex(s: seq<Ref>, i: nat, j: nat)
    requires Distinct(s)
    requires i < |s| && j < |s| && s[i] == s[j]
    ensures i == j
  {
  }

  // ---------------------------------------------------------------------------
  // Properties that relate several operations
  // ---------------------------------------------------------------------------

  /** Removing the record just appended gives back the list that was there
      before the append. */
  lemma {:induction false} RemoveUndoesAppend(s: seq<Ref>, p: Ref)
    requires p !in s
    ensures Without(s + [p], p) == s
  {
    assert IndexOf(s + [p], p) == |s|;
  }

  /** Unlinking the node an append has just linked in restores the table
      exactly, heap and both ends included; only the allocator has moved on. */
  lemma {:induction false} UnlinkUndoesLink(t: Table, s: seq<Ref>, rec: ProcessRecord)
    requires Valid(t, s)
    ensures t.tail.Some? ==> t.tail.value in Link(t, rec).heap
    ensures t.brk in Link(t, rec).heap
    ensures Unlink(Link(t, rec), t.tail, t.brk) == t.(brk := t.brk + 1)
  {
    var t1 := Link(t, rec);
    var p := t.brk;
    assert p !in t.heap;
    var t2 := Unlink(t1, t.tail, p);
    if t.tail.Some? {
      NextOf(t, s, |s| - 1);
      assert t.tail.value != p;
    }
    assert t2.heap == t.heap;
  }

  /** A lookup after an append finds the earlier match when there is one and
      otherwise the appended record when its pid matches. */
  lemma {:induction false} FindAfterAppend(rs: seq<ProcessRecord>, x: ProcessRecord, pid: int)
    ensures FirstWithPid(rs + [x], pid) ==
            (if FirstWithPid(rs, pid).Some? then FirstWithPid(rs, pid)
             else if x.pid == pid then Some(|rs|) else None)
  {
    var rs' := rs + [x];
    assert forall i :: 0 <= i < |rs| ==> rs'[i] == rs[i];
    if FirstWithPid(rs, pid).Some? {
      var k := FirstWithPid(rs, pid).value;
      var k' := FirstWithPid(rs', pid);
      assert rs'[k].pid == pid;
      assert k'.Some?;
      assert !(k'.value < k);
      assert !(k'.value > k);
    } else if x.pid == pid {
      assert rs'[|rs|].pid == pid;
    }
  }
}
