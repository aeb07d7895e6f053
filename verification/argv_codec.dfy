/** The argument-vector payload of a `NEW_PROCESS` command: NUL-terminated
    strings laid back to back in a buffer of declared length `size`.

    `Split` and `Encode` are the reference reading and writing of that format;
    `DecodeArgv` is the daemon's pointer walk over the buffer, proved to agree
    with `Split`. */
module ArgvCodec {
  import opened CTypes

  // ---------------------------------------------------------------------------
  // Reference format
  // ---------------------------------------------------------------------------

  /** Number of NUL bytes in a buffer. */
  function NulCount(b: seq<byte>): (n: nat)
    ensures n == 0 <==> NUL !in b
  {
    multiset(b)[NUL]
  }

  /** `strlen`: the position of the first NUL. */
  function IndexOfNul(b: seq<byte>): (k: nat)
    requires NUL in b
    ensures k < |b| && b[k] == NUL && NUL !in b[..k]
  {
    if b[0] == NUL then 0 else 1 + IndexOfNul(b[1..])
  }

  /** The first NUL is the only NUL with no NUL before it. */
  lemma IndexOfNulUnique(b: seq<byte>, m: nat)
    requires m < |b| && b[m] == NUL && NUL !in b[..m]
    ensures IndexOfNul(b) == m
  {
  }

  /** The strings a buffer holds: every NUL terminates one string; the bytes
      after the last NUL belong to none. */
  function Split(b: seq<byte>): (strs: seq<CString>)
    decreases |b|
  {
    if NUL !in b then []
    else
      var k := IndexOfNul(b);
      [b[..k]] + Split(b[k + 1..])
  }

  /** No decoded string contains a NUL. */
  lemma {:induction false} SplitNulFree(b: seq<byte>)
    ensures forall i :: 0 <= i < |Split(b)| ==> NUL !in Split(b)[i]
    decreases |b|
  {
    if NUL in b {
      var k := IndexOfNul(b);
      SplitNulFree(b[k + 1..]);
      assert Split(b) == [b[..k]] + Split(b[k + 1..]);
    }
  }

  /** One string per NUL byte. */
  lemma {:induction false} SplitCount(b: seq<byte>)
    ensures |Split(b)| == NulCount(b)
    decreases |b|
  {
    if NUL in b {
      var k := IndexOfNul(b);
      assert b == b[..k] + [b[k]] + b[k + 1..];
      assert multiset(b)[NUL] == multiset(b[..k])[NUL] + 1 + multiset(b[k + 1..])[NUL];
      SplitCount(b[k + 1..]);
    } else {
      assert multiset(b)[NUL] == 0;
    }
  }

  /** Lays out `strs` back to back, each followed by its NUL. */
  function Encode(strs: seq<CString>): (b: seq<byte>)
    ensures strs != [] ==> |b| > 0 && b[|b| - 1] == NUL
  {
    if strs == [] then [] else strs[0] + [NUL] + Encode(strs[1..])
  }

  lemma {:induction false} EncodeSnoc(strs: seq<CString>, x: CString)
    ensures Encode(strs + [x]) == Encode(strs) + x + [NUL]
    decreases |strs|
  {
    if strs == [] {
      assert Encode([x]) == x + [NUL] + Encode([]);
    } else {
      assert (strs + [x])[1..] == strs[1..] + [x];
      EncodeSnoc(strs[1..], x);
    }
  }

  /** Offset of the `j`-th string in the encoding of `strs`. */
  function Offset(strs: seq<CString>, j: nat): nat
    requires j <= |strs|
  {
    |Encode(strs[..j])|
  }

  /** Round trip, encode then decode: NUL-free strings come back exactly,
      in order, empty strings included. */
  lemma {:induction false} SplitEncode(strs: seq<CString>)
    requires forall i :: 0 <= i < |strs| ==> NUL !in strs[i]
    ensures Split(Encode(strs)) == strs
    decreases |strs|
  {
    if strs != [] {
      var b := Encode(strs);
      var x := strs[0];
      assert b == x + [NUL] + Encode(strs[1..]);
      assert b[..|x|] == x;
      IndexOfNulUnique(b, |x|);
      assert b[|x| + 1..] == Encode(strs[1..]);
      SplitEncode(strs[1..]);
    }
  }

  /** Round trip, decode then encode: the decoded strings re-encode to a
      prefix of the buffer that ends at its last NUL; what follows that prefix
      holds no NUL and is part of no string. */
  lemma {:induction false} EncodeSplit(b: seq<byte>)
    ensures |Encode(Split(b))| <= |b|
    ensures Encode(Split(b)) == b[..|Encode(Split(b))|]
    ensures NUL !in b[|Encode(Split(b))|..]
    decreases |b|
  {
    if NUL in b {
      var k := IndexOfNul(b);
      var rest := b[k + 1..];
      var e := Encode(Split(rest));
      EncodeSplit(rest);
      SplitUnfold(b);
      Glue(b, k, |e|);
      assert Encode(Split(b)) == b[..k] + [NUL] + e;
    }
  }

  /** One unfolding of `Split` and `Encode` at the first NUL. */
  lemma SplitUnfold(b: seq<byte>)
    requires NUL in b
    ensures var k := IndexOfNul(b);
            && Split(b) == [b[..k]] + Split(b[k + 1..])
            && Encode(Split(b)) == b[..k] + [NUL] + Encode(Split(b[k + 1..]))
  {
    var k := IndexOfNul(b);
    var x, rest := b[..k], Split(b[k + 1..]);
    assert Split(b) == [x] + rest;
    EncodeCons(x, rest);
  }

  /** One unfolding of `Encode` at its first string. */
  lemma EncodeCons(x: CString, rest: seq<CString>)
    ensures Encode([x] + rest) == x + [NUL] + Encode(rest)
  {
    assert ([x] + rest)[1..] == rest;
  }

  lemma Glue(b: seq<byte>, k: nat, n: nat)
    requires k < |b| && k + 1 + n <= |b| && b[k] == NUL
    ensures b[..k + 1 + n] == b[..k] + [NUL] + b[k + 1..][..n]
    ensures b[k + 1 + n..] == b[k + 1..][n..]
  {
    assert b[..k + 1 + n] == b[..k] + [b[k]] + b[k + 1..k + 1 + n];
  }

  /** A NUL-free string followed by its NUL is read as that string. */
  lemma SplitCons(x: CString, rest: seq<byte>)
    requires NUL !in x
    ensures Split(x + [NUL] + rest) == [x] + Split(rest)
  {
    var b := x + [NUL] + rest;
    assert b[..|x|] == x;
    IndexOfNulUnique(b, |x|);
    assert b[|x| + 1..] == rest;
  }

  /** Whatever follows a run of encoded strings, those strings are read
      first, unchanged. */
  lemma {:induction false} SplitAfterEncode(pre: seq<CString>, rest: seq<byte>)
    requires forall i :: 0 <= i < |pre| ==> NUL !in pre[i]
    ensures Split(Encode(pre) + rest) == pre + Split(rest)
    decreases |pre|
  {
    if pre == [] {
      assert Encode(pre) + rest == rest;
    } else {
      var more := pre[1..];
      EncodeThen(pre, rest);
      SplitAfterEncode(more, rest);
      SplitStep(pre[0], more, Encode(pre) + rest, Encode(more), rest);
      assert pre == [pre[0]] + more;
    }
  }

  /** `Encode` unfolded once, with trailing bytes. */
  lemma EncodeThen(pre: seq<CString>, rest: seq<byte>)
    requires pre != []
    ensures Encode(pre) + rest == pre[0] + [NUL] + (Encode(pre[1..]) + rest)
  {
    assert pre == [pre[0]] + pre[1..];
    EncodeCons(pre[0], pre[1..]);
  }

  /** The inductive step of `SplitAfterEncode`, over plain buffers. */
  lemma SplitStep(x: CString, more: seq<CString>, b: seq<byte>, e: seq<byte>, rest: seq<byte>)
    requires NUL !in x && b == x + [NUL] + (e + rest)
    requires Split(e + rest) == more + Split(rest)
    ensures Split(b) == ([x] + more) + Split(rest)
  {
    SplitCons(x, e + rest);
  }

  /** A string followed by two NUL bytes is read as that string and then an
      empty one. */
  lemma DoubleNul(x: CString, y: seq<byte>)
    requires NUL !in x
    ensures Split(x + [NUL, NUL] + y) == [x, []] + Split(y)
  {
    var b := x + [NUL, NUL] + y;
    assert b[..|x|] == x;
    IndexOfNulUnique(b, |x|);
    var b' := b[|x| + 1..];
    assert b' == [NUL] + y;
    assert b'[..0] == [];
    IndexOfNulUnique(b', 0);
    assert b'[1..] == y;
  }

  /** Two NUL bytes in a row yield an empty argument between them, wherever
      they sit in the payload. */
  lemma {:induction false} EmptyArgument(pre: seq<CString>, x: CString, y: seq<byte>)
    requires forall i :: 0 <= i < |pre| ==> NUL !in pre[i]
    requires NUL !in x
    ensures Split(Encode(pre) + x + [NUL, NUL] + y) == pre + [x, []] + Split(y)
  {
    var rest := x + [NUL, NUL] + y;
    assert Encode(pre) + x + [NUL, NUL] + y == Encode(pre) + rest;
    SplitAfterEncode(pre, rest);
    DoubleNul(x, y);
  }

  // ---------------------------------------------------------------------------
  // The daemon's walk
  // ---------------------------------------------------------------------------

  /** The pointer array the walk is meant to build: one pointer per string, at
      that string's offset, then NULL. */
  function PointerArray(b: seq<byte>): (argv: seq<Option<nat>>)
    ensures |argv| == |Split(b)| + 1 && argv[|argv| - 1] == None
  {
    Starts(Split(b)) + [None]
  }

  /** A pointer to the start of each string of an encoding. */
  function Starts(strs: seq<CString>): (ptrs: seq<Option<nat>>)
    ensures |ptrs| == |strs|
    ensures forall j :: 0 <= j < |ptrs| ==> ptrs[j].Some?
  {
    seq(|strs|, j requires 0 <= j < |strs| => Some(Offset(strs, j)))
  }

  /** The string a non-NULL pointer designates: from `o` up to the next NUL. */
  function CStringAt(b: seq<byte>, o: nat): (str: CString)
    requires o <= |b| && NUL in b[o..]
    ensures NUL !in str
  {
    b[o..o + IndexOfNul(b[o..])]
  }

  /** Counts the NUL bytes among the first `size` bytes of `command`, then
      walks the buffer recording where each NUL-terminated string starts, and
      ends the pointer array with NULL. Every read `command[curr]` is in
      bounds: an inner scan starts only while an unconsumed NUL remains, and
      stops at it. */
  method DecodeArgv(command: seq<byte>) returns (argv: seq<Option<nat>>)
    ensures argv == PointerArray(command)
    ensures |argv| == NulCount(command) + 1
    ensures argv[|argv| - 1] == None
    ensures forall j :: 0 <= j < |argv| - 1 ==> argv[j].Some? && argv[j].value < |command|
    ensures |argv| > 1 ==> argv[0] == Some(0)
    ensures forall j :: 0 < j < |argv| - 1 ==>
              argv[j].value == argv[j - 1].value + |Split(command)[j - 1]| + 1
    ensures forall j :: 0 <= j < |argv| - 1 ==>
              NUL in command[argv[j].value..] && CStringAt(command, argv[j].value) == Split(command)[j]
  {
    var args := CountNuls(command);
    SplitCount(command);
    var starts := WalkStrings(command, args);
    argv := starts + [None];
    assert argv == PointerArray(command);
    DecodedLayout(command, argv);
  }

  /** The walk `while (args > 0)`: records the current position as the start
      of a string, scans to its NUL, steps past it, and repeats once per
      string. */
  method WalkStrings(command: seq<byte>, args: nat) returns (starts: seq<Option<nat>>)
    requires args == |Split(command)|
    ensures starts == Starts(Split(command))
  {
    ghost var strs := Split(command);
    ghost var done: seq<CString> := [];
    starts := [];
    var curr := 0;
    var left := args;
    WalkBegins(command);
    while left > 0
      invariant Walked(command, strs, done, curr, left, starts)
    {
      done, curr, starts := NextString(command, strs, done, curr, left, starts);
      left := left - 1;
    }
    WalkEnds(command, strs, done, curr, starts);
  }

  /** One step of the walk: records where the next string starts and moves
      past its NUL. */
  method NextString(command: seq<byte>, ghost strs: seq<CString>, ghost done: seq<CString>,
                    curr: nat, left: nat, starts: seq<Option<nat>>)
    returns (ghost done': seq<CString>, curr': nat, starts': seq<Option<nat>>)
    requires Walked(command, strs, done, curr, left, starts) && left > 0
    ensures curr < curr' <= |command| && starts' == starts + [Some(curr)]
    ensures Walked(command, strs, done', curr', left - 1, starts')
  {
    NulAhead(command, strs, done, curr, left, starts);
    var k := ScanToNul(command, curr);
    WalkStep(command, strs, done, curr, left, starts, k);
    done' := done + [command[curr..k]];
    starts' := starts + [Some(curr)];
    curr' := k + 1;
  }

  /** The state of the walk: `curr` is just past the strings `done` already
      seen, `left` strings remain, and `starts` points at each one seen. */
  ghost predicate Walked(command: seq<byte>, strs: seq<CString>, done: seq<CString>,
                         curr: nat, left: nat, starts: seq<Option<nat>>)
  {
    && curr <= |command|
    && |done| + left == |strs|
    && done + Split(command[curr..]) == strs
    && Encode(done) == command[..curr]
    && starts == Starts(done)
  }

  /** Nothing is walked at the start. */
  lemma WalkBegins(command: seq<byte>)
    ensures Walked(command, Split(command), [], 0, |Split(command)|, [])
  {
    assert command[0..] == command;
  }

  /** While strings remain, a NUL lies ahead of the walk. */
  lemma NulAhead(command: seq<byte>, strs: seq<CString>, done: seq<CString>,
                 curr: nat, left: nat, starts: seq<Option<nat>>)
    requires Walked(command, strs, done, curr, left, starts) && left > 0
    ensures NUL in command[curr..]
  {
    assert |Split(command[curr..])| == left;
  }

  /** Once no string remains, every string has been pointed at. */
  lemma WalkEnds(command: seq<byte>, strs: seq<CString>, done: seq<CString>,
                 curr: nat, starts: seq<Option<nat>>)
    requires Walked(command, strs, done, curr, 0, starts)
    ensures starts == Starts(strs)
  {
    assert done == strs;
  }

  /** The counting loop: one pass over the `size` bytes, counting NULs. */
  method CountNuls(command: seq<byte>) returns (args: nat)
    ensures args == NulCount(command)
  {
    args := 0;
    var i := 0;
    while i < |command|
      invariant 0 <= i <= |command|
      invariant args == NulCount(command[..i])
    {
      assert command[..i + 1] == command[..i] + [command[i]];
      if command[i] == NUL {
        args := args + 1;
      }
      i := i + 1;
    }
    assert command[..|command|] == command;
  }

  /** The inner scan `while (*curr != '\0') curr++`: stops at the first NUL at
      or after `curr`, which the caller guarantees exists. */
  method ScanToNul(command: seq<byte>, curr: nat) returns (k: nat)
    requires curr <= |command| && NUL in command[curr..]
    ensures curr <= k < |command| && command[k] == NUL
    ensures NUL !in command[curr..k]
  {
    k := curr;
    while command[k] != NUL
      invariant curr <= k < |command|
      invariant NUL !in command[curr..k]
      invariant NUL in command[k..]
      decreases |command| - k
    {
      assert command[k..] == [command[k]] + command[k + 1..];
      assert command[curr..k + 1] == command[curr..k] + [command[k]];
      k := k + 1;
    }
  }

  /** One step of the walk: the string from `curr` to the NUL at `k` is the
      next decoded string, and recording it keeps the encoding of the strings
      seen so far equal to the bytes consumed so far. */
  lemma WalkStep(command: seq<byte>, strs: seq<CString>, done: seq<CString>,
                 curr: nat, left: nat, starts: seq<Option<nat>>, k: nat)
    requires Walked(command, strs, done, curr, left, starts) && left > 0
    requires curr <= k < |command| && command[k] == NUL && NUL !in command[curr..k]
    ensures Walked(command, strs, done + [command[curr..k]], k + 1, left - 1,
                   starts + [Some(curr)])
  {
    var x := command[curr..k];
    WalkSplit(command, done, curr, k);
    WalkEncode(command, done, curr, k);
    StartsSnoc(done, x);
  }

  /** Appending a string adds a pointer to where the encoding used to end. */
  lemma StartsSnoc(done: seq<CString>, x: CString)
    ensures Starts(done + [x]) == Starts(done) + [Some(|Encode(done)|)]
  {
    OffsetSnoc(done, x);
    assert done[..|done|] == done;
  }

  lemma WalkEncode(command: seq<byte>, done: seq<CString>, curr: nat, k: nat)
    requires curr <= k < |command|
    requires command[k] == NUL
    requires Encode(done) == command[..curr]
    ensures Encode(done + [command[curr..k]]) == command[..k + 1]
  {
    EncodeSnoc(done, command[curr..k]);
    assert command[..k + 1] == command[..curr] + command[curr..k] + [NUL];
  }

  /** Appending a string moves none of the earlier offsets. */
  lemma OffsetSnoc(done: seq<CString>, x: CString)
    ensures forall j :: 0 <= j <= |done| ==> Offset(done + [x], j) == Offset(done, j)
  {
    forall j | 0 <= j <= |done|
      ensures Offset(done + [x], j) == Offset(done, j)
    {
      assert (done + [x])[..j] == done[..j];
    }
  }

  lemma WalkSplit(command: seq<byte>, done: seq<CString>, curr: nat, k: nat)
    requires curr <= k < |command| && command[k] == NUL && NUL !in command[curr..k]
    ensures Split(command[curr..]) == [command[curr..k]] + Split(command[k + 1..])
    ensures done + Split(command[curr..]) == (done + [command[curr..k]]) + Split(command[k + 1..])
  {
    var c := command[curr..];
    assert c[..k - curr] == command[curr..k];
    IndexOfNulUnique(c, k - curr);
    assert c[k - curr + 1..] == command[k + 1..];
  }

  /** What the pointer array says about the buffer: strings start at 0 and
      each one right after the previous one's NUL, and each pointer designates
      the corresponding decoded string. */
  lemma {:induction false} DecodedLayout(command: seq<byte>, argv: seq<Option<nat>>)
    requires argv == PointerArray(command)
    ensures |argv| > 1 ==> argv[0] == Some(0)
    ensures forall j :: 0 < j < |argv| - 1 ==>
              argv[j].value == argv[j - 1].value + |Split(command)[j - 1]| + 1
    ensures forall j :: 0 <= j < |argv| - 1 ==>
              argv[j].Some? && argv[j].value < |command|
              && NUL in command[argv[j].value..] && CStringAt(command, argv[j].value) == Split(command)[j]
  {
    var strs := Split(command);
    if |argv| > 1 {
      assert strs[..0] == [];
    }
    forall j | 0 < j < |argv| - 1
      ensures argv[j].value == argv[j - 1].value + |strs[j - 1]| + 1
    {
      StringAt(command, j - 1);
    }
    forall j | 0 <= j < |argv| - 1
      ensures argv[j].Some? && argv[j].value < |command|
      ensures NUL in command[argv[j].value..] && CStringAt(command, argv[j].value) == strs[j]
    {
      StringAt(command, j);
    }
  }

  /** The `j`-th decoded string sits at its offset in the buffer, is followed
      there by a NUL, and the next string starts right after that NUL. */
  lemma {:induction false} StringAt(command: seq<byte>, j: nat)
    requires j < |Split(command)|
    ensures var strs := Split(command);
            var o := Offset(strs, j);
            && o + |strs[j]| < |command|
            && NUL in command[o..]
            && CStringAt(command, o) == strs[j]
            && Offset(strs, j + 1) == o + |strs[j]| + 1
  {
    var strs := Split(command);
    SliceAt(command, j);
    SplitNulFree(command);
    TerminatedAt(command, Offset(strs, j), strs[j]);
  }

  /** The `j`-th decoded string and its NUL sit at that string's offset. */
  lemma {:induction false} SliceAt(command: seq<byte>, j: nat)
    requires j < |Split(command)|
    ensures var strs := Split(command);
            var o := Offset(strs, j);
            && o + |strs[j]| < |command|
            && command[o..o + |strs[j]| + 1] == strs[j] + [NUL]
            && Offset(strs, j + 1) == o + |strs[j]| + 1
  {
    var strs := Split(command);
    var o := Offset(strs, j);
    var x := strs[j];
    var e := Encode(strs);
    EncodedAt(strs, j);
    EncodeSplit(command);
    PrefixSlice(command, e, o, o + |x| + 1);
  }

  /** A slice of a prefix is the same slice of the whole. */
  lemma PrefixSlice(b: seq<byte>, e: seq<byte>, lo: nat, hi: nat)
    requires |e| <= |b| && e == b[..|e|] && lo <= hi <= |e|
    ensures b[lo..hi] == e[lo..hi]
  {
  }

  /** A NUL-free string followed by a NUL at offset `o` is what `o` designates. */
  lemma TerminatedAt(b: seq<byte>, o: nat, x: CString)
    requires o + |x| < |b| && b[o..o + |x| + 1] == x + [NUL] && NUL !in x
    ensures NUL in b[o..] && CStringAt(b, o) == x
  {
    var c := b[o..];
    assert c[..|x|] == b[o..o + |x| + 1][..|x|];
    assert c[|x|] == b[o..o + |x| + 1][|x|];
    IndexOfNulUnique(c, |x|);
  }

  /** In the encoding of `strs`, the `j`-th string and its NUL occupy the
      bytes from its offset up to the next string's offset. */
  lemma EncodedAt(strs: seq<CString>, j: nat)
    requires j < |strs|
    ensures Offset(strs, j + 1) == Offset(strs, j) + |strs[j]| + 1
    ensures Offset(strs, j + 1) <= |Encode(strs)|
    ensures Encode(strs)[Offset(strs, j)..Offset(strs, j + 1)] == strs[j] + [NUL]
  {
    var x := strs[j];
    var o := Offset(strs, j);
    var p := Encode(strs[..j + 1]);
    assert p == Encode(strs[..j]) + x + [NUL] by {
      assert strs[..j + 1] == strs[..j] + [x];
      EncodeSnoc(strs[..j], x);
    }
    EncodePrefix(strs, j + 1);
    assert p[o..] == x + [NUL];
  }

  /** The encoding of a prefix of `strs` is a prefix of the encoding of `strs`. */
  lemma {:induction false} EncodePrefix(strs: seq<CString>, j: nat)
    requires j <= |strs|
    ensures |Encode(strs[..j])| <= |Encode(strs)|
    ensures Encode(strs[..j]) == Encode(strs)[..|Encode(strs[..j])|]
    decreases |strs|
  {
    if j > 0 {
      assert strs[..j][1..] == strs[1..][..j - 1];
      EncodePrefix(strs[1..], j - 1);
    }
  }

  /** Every non-NULL pointer of `argv` designates a NUL-terminated string
      inside `b`. */
  predicate Dereferenceable(b: seq<byte>, argv: seq<Option<nat>>) {
    forall j :: 0 <= j < |argv| && argv[j].Some? ==>
      argv[j].value <= |b| && NUL in b[argv[j].value..]
  }

  /** Dereferences every slot of a pointer array: a pointer becomes the string
      it designates and NULL stays NULL. */
  function Strings(b: seq<byte>, argv: seq<Option<nat>>): (v: CVector)
    requires Dereferenceable(b, argv)
    ensures |v| == |argv|
    ensures forall j :: 0 <= j < |argv| ==> (v[j].None? <==> argv[j].None?)
  {
    seq(|argv|, j requires 0 <= j < |argv| =>
      if argv[j].None? then None else Some(CStringAt(b, argv[j].value)))
  }

  /** `strs` as a C vector: one non-NULL slot per string, then NULL. */
  function Vector(strs: seq<CString>): (v: CVector)
    ensures |v| == |strs| + 1 && v[|strs|] == None
    ensures forall j :: 0 <= j < |strs| ==> v[j] == Some(strs[j])
  {
    seq(|strs|, j requires 0 <= j < |strs| => Some(strs[j])) + [None]
  }

  /** Dereferencing the pointer array the walk builds yields exactly the
      decoded strings, in order, then NULL. */
  lemma {:induction false} DecodedStrings(command: seq<byte>)
    ensures Dereferenceable(command, PointerArray(command))
    ensures Strings(command, PointerArray(command)) == Vector(Split(command))
  {
    var argv := PointerArray(command);
    DecodedLayout(command, argv);
    var v := Strings(command, argv);
    var w := Vector(Split(command));
    assert forall j :: 0 <= j < |v| ==> v[j] == w[j];
  }
}
