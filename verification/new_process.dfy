/** The `NEW_PROCESS` command of the daemon: decode the payload into an
    argument vector, take its first string as the program and the rest as the
    program's arguments, and register the launched child in the process table.

    Starting the child (`fork`, `execvp`) is not modelled: its pid arrives as a
    parameter, as it would from `fork` in the parent. */
module NewProcess {
  import opened CTypes
  import opened ProcessTable
  import opened ArgvCodec

  /** Why a payload is refused. */
  datatype CommandError =
    | EmptyCommand  // the payload holds no NUL-terminated string, so no program name

  /** What a payload asks the daemon to launch: the program and its
      NULL-terminated argument vector. */
  datatype Request = Request(program: CString, argv: CVector)

  /** The reading of a payload the daemon intends: the first decoded string is
      the program, the strings after it are the arguments; a payload with no
      string at all is refused. */
  function NewProcessRequest(payload: seq<byte>): (r: Result<Request, CommandError>)
    ensures r.Failure? <==> NUL !in payload
    ensures r.Success? ==> NUL !in r.value.program
    ensures r.Success? ==> NullTerminated(r.value.argv) && ArgsNulFree(r.value.argv)
  {
    var strs := Split(payload);
    if strs == [] then Failure(EmptyCommand)
    else
      SplitNulFree(payload);
      VectorNulFree(strs[1..]);
      Success(Request(strs[0], Vector(strs[1..])))
  }

  /** Round trip: a program name and arguments free of NUL, laid out as the
      client lays them out, are read back exactly, empty arguments included. */
  lemma {:induction false} RequestRoundTrip(program: CString, args: seq<CString>)
    requires NUL !in program
    requires forall i :: 0 <= i < |args| ==> NUL !in args[i]
    ensures NewProcessRequest(Encode([program] + args)) == Success(Request(program, Vector(args)))
  {
    var strs := [program] + args;
    forall i | 0 <= i < |strs|
      ensures NUL !in strs[i]
    {
      if i > 0 {
        assert strs[i] == args[i - 1];
      }
    }
    SplitEncode(strs);
    assert Split(Encode(strs)) == strs;
    assert strs[0] == program && strs[1..] == args;
  }

  /** A vector built from strings counts exactly those strings. */
  lemma {:induction false} ArgCountVector(strs: seq<CString>)
    ensures NullTerminated(Vector(strs)) && ArgCount(Vector(strs)) == |strs|
  {
    var v := Vector(strs);
    assert v[|strs|].None?;
  }

  /** A vector built from NUL-free strings holds only C strings. */
  lemma VectorNulFree(strs: seq<CString>)
    requires forall i :: 0 <= i < |strs| ==> NUL !in strs[i]
    ensures NullTerminated(Vector(strs)) && ArgsNulFree(Vector(strs))
  {
    ArgCountVector(strs);
  }

  /** The `NEW_PROCESS` handler: decodes the payload, refuses one that holds
      no string, and otherwise records the launched child `pid` with the
      program, its arguments, the configured output file and retry budget. */
  method HandleNewProcess(t: Table, ghost s: seq<Ref>, payload: seq<byte>, pid: int,
                          stdoutFile: Option<CString>, maxRetries: int)
    returns (t': Table, outcome: Result<Ref, CommandError>)
    requires Valid(t, s)
    requires stdoutFile.Some? ==> NUL !in stdoutFile.value
    ensures outcome.Failure? <==> NUL !in payload
    ensures outcome.Failure? ==> t' == t && outcome.error == EmptyCommand
    ensures outcome.Success? ==>
              var p := outcome.value;
              var req := NewProcessRequest(payload).value;
              && p !in s
              && Valid(t', s + [p])
              && Records(t', s + [p]) == Records(t, s) + [ProcessRecord(pid, maxRetries, req.program, req.argv, stdoutFile)]
  {
    var argv := DecodeArgv(payload);
    if argv[0].None? {
      return t, Failure(EmptyCommand);
    }
    DecodedRequest(payload);
    var v := Strings(payload, argv);
    var p;
    t', p := AddProcess(t, s, pid, v[0].value, v[1..], stdoutFile, maxRetries);
    CopyIsWhole(v[1..], t'.heap[p].rec.argv);
    outcome := Success(p);
  }

  /** The decoded vector of a payload holding a NUL carries the intended
      request: slot 0 is the program, and the slots from 1 on are exactly the
      argument vector, whose first NULL is its last slot. */
  lemma {:induction false} DecodedRequest(payload: seq<byte>)
    requires NUL in payload
    ensures Dereferenceable(payload, PointerArray(payload))
    ensures var v := Strings(payload, PointerArray(payload));
            var r := NewProcessRequest(payload).value;
            && |v| > 1
            && v[0] == Some(r.program)
            && v[1..] == r.argv
            && NullTerminated(v[1..]) && ArgCount(v[1..]) == |v| - 2
  {
    DecodedStrings(payload);
    var strs := Split(payload);
    assert Vector(strs)[1..] == Vector(strs[1..]);
    ArgCountVector(strs[1..]);
  }

  /** A slot-by-slot copy of a whole vector is that vector. */
  lemma CopyIsWhole(v: CVector, copy: CVector)
    requires |copy| == |v| > 0 && copy[|v| - 1] == v[|v| - 1]
    requires forall i :: 0 <= i < |v| - 1 ==> copy[i] == v[i]
    ensures copy == v
  {
  }

  // ---------------------------------------------------------------------------
  // The handler as written
  // ---------------------------------------------------------------------------

  /** The arguments the handler as written hands on: slot 0 of the decoded
      vector as the program, and the vector from slot 1 as the arguments. */
  datatype Launch = Launch(program: Option<CString>, argv: CVector)

  /** The handler as written: it does not look at the number of strings before
      taking slot 0 and the tail from slot 1. */
  function LaunchAsWritten(payload: seq<byte>): (r: Launch)
    ensures |r.argv| == NulCount(payload)
  {
    var argv := PointerArray(payload);
    DecodedStrings(payload);
    SplitCount(payload);
    var v := Strings(payload, argv);
    Launch(v[0], v[1..])
  }

  /** A payload with no NUL, the empty one included, makes the handler as
      written pass NULL as the program and an argument vector with no NULL
      slot at all: it points one past the one-slot array. */
  lemma {:induction false} NulFreePayloadBreaksLaunch(payload: seq<byte>)
    requires NUL !in payload
    ensures LaunchAsWritten(payload).program == None
    ensures LaunchAsWritten(payload).argv == []
    ensures !NullTerminated(LaunchAsWritten(payload).argv)
  {
  }

  /** The size-0 payload is such a payload. */
  lemma EmptyPayloadBreaksLaunch()
    ensures LaunchAsWritten([]).program == None && !NullTerminated(LaunchAsWritten([]).argv)
  {
    NulFreePayloadBreaksLaunch([]);
  }

  /** On every other payload the handler as written and the corrected reading
      agree. */
  lemma {:induction false} LaunchAsWrittenOtherwise(payload: seq<byte>)
    requires NUL in payload
    ensures var r := NewProcessRequest(payload).value;
            LaunchAsWritten(payload) == Launch(Some(r.program), r.argv)
  {
    DecodedStrings(payload);
    var strs := Split(payload);
    assert Vector(strs)[1..] == Vector(strs[1..]);
  }
}
