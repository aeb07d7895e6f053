# pm: process table and NEW_PROCESS decoder

`pm` is a small process supervisor. A daemon accepts commands on a Unix
socket, launches programs and keeps one record per launched child in a
managed-process table. This project models two sequential pieces of it in
Dafny and proves their properties.

- **The process table** (`process_table.dfy`, module `ProcessTable`). The
  table is a singly-linked list of heap records with a `head` pointer
  (`config.process_list`) and a `tail` pointer (`config.process_list_end`).
  - The heap is a value: a finite map from addresses to nodes. An allocator
    counter `brk` hands out fresh addresses.
  - Freeing a record (`destroy_process`) removes its address from the map.
  - `Valid(t, s)` ties a table `t` to the ordered list `s` of addresses
    reachable from `head`. The pointer-walking methods `AddProcess`,
    `FindProcessWithPid` and `RemoveProcessFromList` are proved against it.
- **The argument-vector decoder** of the `NEW_PROCESS` command
  (`argv_codec.dfy`, module `ArgvCodec`). The payload is `size` bytes holding
  NUL-terminated strings back to back.
  - `Split` and `Encode` are the reference reading and writing of that format.
  - `DecodeArgv` is the daemon's two-loop pointer walk. It builds an array of
    offsets ending with NULL, and is proved to point at exactly the strings
    `Split` reads.
- **The command handler** (`new_process.dfy`, module `NewProcess`). It takes
  the first decoded string as the program and the rest as its NULL-terminated
  arguments, then records the child in the table.
- **Shared C vocabulary** (`ctypes.dfy`, module `CTypes`): bytes, NUL,
  nullable values and results.

Decoding policy, as the code does it:
- every NUL ends one string, so two NULs in a row give an empty argument;
- a final NUL ends the last argument rather than starting an empty one;
- bytes after the last NUL belong to no argument and are dropped.

The code has no error path for `NEW_PROCESS`: it always replies OK and, given
a payload with no NUL, crashes. The model follows the code everywhere except
that one case: it refuses such a payload instead (see Findings).

Strings are C strings. A `CString` value is a byte sequence, and
`add_process` copies every string with `strcpy`, which stops at the first NUL.
So `AddProcess` and `CopyArgv` require the program name, the output file and
every argument before the terminating NULL to hold no NUL. The decoder
provides exactly that: every string it reads is NUL-free.

## Model

| member | source | states |
|---|---|---|
| `ProcessTable.ReachableFromHead` | process.c:36-116 | In a valid table, head is NULL exactly when tail is NULL. Following `next` from head visits the list in order and reaches NULL after the last node, which is what the walks at process.c:36-37 and 46-47 rely on to stop. Tail is the last node reachable from head, which the append at process.c:107-116 relies on. |
| `ProcessTable.Link` | process.c:107-115 | Linking allocates exactly one fresh address, holding the record with a NULL `next`, advances the allocator and makes that address the tail. |
| `ProcessTable.EmptyIsValid` | pm.c:21-23 | The daemon starts with no process list: the table with NULL head and tail and an empty heap is valid for the empty list, and for no other list. |
| `ProcessTable.AbstractionUnique` | process.c:36-37 | The pointers alone determine the list: two sequences valid for the same table are equal. |
| `ProcessTable.ArgCount` | process.c:95-98 | `argc` is the index of the first NULL slot: every slot before it is non-NULL. |
| `ProcessTable.CopyArgv` | process.c:93-105 | Requires C strings before the NULL slot. The copied vector has `argc + 1` slots. The first `argc` equal the input's slots, and slot `argc` is NULL. |
| `ProcessTable.AddProcess` | process.c:71-117 | Requires C strings, which `strcpy` copies whole. The new record is at a fresh address and is appended: the list becomes `s + [p]` and the old records keep their order and contents. It stores exactly `pid`, `max_retries`, `program` and `stdout_file`, so a NULL output file stays NULL, together with the argv copy. On an empty list the record becomes both head and tail. Otherwise the old tail links to it and the tail moves to it. |
| `ProcessTable.FirstWithPid` | process.c:34-42 | Reference lookup on the list of records: the position of the first record carrying `pid`, with no earlier record carrying it, or none exactly when no record carries it. |
| `ProcessTable.FindProcessWithPid` | process.c:34-42 | The pointer walk from head returns the node at the first position whose pid matches, and NULL exactly when no record matches. |
| `ProcessTable.Unlink` | process.c:52-64 | Unlinking and freeing a node removes exactly that address from the heap. Every surviving record is unchanged. |
| `ProcessTable.RemoveProcessFromList` | process.c:44-69 | Returns true exactly when the node is in the list. On false, the table is untouched. On true, the list is the old one with exactly that element deleted, order kept and records unchanged, and the node is freed. Head moves to the successor when the head is removed, tail moves to the predecessor when the tail is removed, and removing the only node leaves both NULL. The result is again a valid table. |
| `ProcessTable.RemoveUndoesAppend` | process.c:44-69 | Removing the record just appended restores the previous list. |
| `ProcessTable.UnlinkUndoesLink` | process.c:52-64 | Unlinking the node that the append of process.c:107-115 has just linked in gives back the same heap, head and tail. Only the allocator has advanced. |
| `ProcessTable.FindAfterAppend` | process.c:34-42 | After an append, a lookup finds the earlier match if there is one, else the new record if its pid matches, else nothing. |
| `ArgvCodec.IndexOfNul` | daemon.c:51-52 | The inner scan stops at the first NUL: it is in bounds, it is a NUL, and no NUL precedes it. |
| `ArgvCodec.SplitCount` | daemon.c:37-41 | The number of decoded strings equals the number of NUL bytes in the payload. |
| `ArgvCodec.SplitNulFree` | daemon.c:49-54 | No decoded string contains a NUL. |
| `ArgvCodec.SplitEncode` | daemon.c:38-59 | Round trip: NUL-free strings laid out back to back, each with its NUL, decode to the same ordered strings, empty ones included. |
| `ArgvCodec.EncodeSplit` | daemon.c:39-57 | Round trip the other way: re-encoding the decoded strings gives a prefix of the payload that ends at its last NUL. The remaining bytes hold no NUL and belong to no string. |
| `ArgvCodec.SplitAfterEncode` | daemon.c:46-57 | Whatever bytes follow a run of encoded NUL-free strings, those strings are decoded first, unchanged and in order. |
| `ArgvCodec.EmptyArgument` | daemon.c:51-54 | Two consecutive NUL bytes produce an empty-string argument, wherever they occur: after any number of earlier strings, the string before them and an empty string are decoded, and decoding carries on after them. |
| `ArgvCodec.CountNuls` | daemon.c:37-41 | The counting loop returns the number of NUL bytes among the `size` bytes. |
| `ArgvCodec.ScanToNul` | daemon.c:51-54 | When a NUL lies ahead, the scan reads only in-bounds bytes and stops at the first NUL. |
| `ArgvCodec.NextString` | daemon.c:48-56 | One pass of the outer loop records the start of the next string and moves just past its NUL. The walk invariant is kept. |
| `ArgvCodec.WalkStrings` | daemon.c:46-57 | With `args` equal to the number of strings, the walk records each string's start in payload order. |
| `ArgvCodec.DecodeArgv` | daemon.c:37-59 | The pointer array has `args + 1` slots and ends with NULL. The first string starts at offset 0. Each later string starts right after the previous string's NUL. Every pointer is below `size` and designates exactly the matching decoded string. With no NUL, slot 0 is the terminator. |
| `ArgvCodec.DecodedLayout` | daemon.c:46-59 | The same layout facts, proved of the reference pointer array for every payload. |
| `ArgvCodec.DecodedStrings` | daemon.c:43-59 | Dereferencing the pointer array gives exactly the decoded strings, in order, followed by NULL. |
| `NewProcess.NewProcessRequest` | daemon.c:62-65 | Intended reading of a payload: refused exactly when it holds no NUL. Otherwise the program is NUL-free and the argument vector is NULL-terminated with NUL-free strings before its NULL. |
| `NewProcess.RequestRoundTrip` | daemon.c:31-65 | A NUL-free program name and arguments, encoded as the client sends them, come back as that program and those arguments followed by NULL. |
| `NewProcess.HandleNewProcess` | daemon.c:31-65 | Given a NUL-free configured output file, the corrected handler refuses exactly the payloads without a NUL and leaves the table unchanged when it does. Otherwise it appends one record with the given pid, retry budget and output file, the first decoded string as the program, and the remaining strings plus NULL as argv. The table stays valid. |
| `NewProcess.LaunchAsWritten` | daemon.c:59-65 | The handler as written: slot 0 becomes the program and the vector from slot 1 becomes the arguments, which then have one slot per NUL in the payload. |
| `NewProcess.NulFreePayloadBreaksLaunch` | daemon.c:37-65 | For a payload without a NUL, the handler as written passes NULL as the program and an argument vector with no NULL slot. |
| `NewProcess.EmptyPayloadBreaksLaunch` | daemon.c:33-44 | For the size-0 payload, the handler as written passes NULL as the program and an argument vector with no NULL slot. |
| `NewProcess.LaunchAsWrittenOtherwise` | daemon.c:59-65 | For every payload with a NUL, the handler as written and the corrected reading agree. |

## Left out

- Locking: `lock_process_list`/`unlock_process_list` and the mutex they take. Every table operation is treated as atomic.
- `destroy_process` (process.c:16-32): freeing is modelled as the node's address leaving the heap map. The individual `free` calls on the strings are not modelled.
- `malloc_nofail`: modelled as an allocator that always succeeds and returns an address never handed out before. Freed addresses are not reused. The exit-on-failure path is not modelled.
- Process creation: `fork`, `execvp`, `dup2` and the output-file redirection in `new_process` (pm.c:90-116). The child's pid is a parameter of `HandleNewProcess`.
- `new_process` passes `&argv[1]` to `execvp`, so the launched program's own `argv[0]` is its first real argument. This is not modelled, because exec is outside the model.
- Sockets: accepting and reading the command, `read_nofail`, and the reply `send_response(OK)`. The payload is an already-read sequence of exactly `size` bytes, and the reply is not modelled.
- The shutdown loop, `SIGNAL_PROCESS`, `LIST_PROCESS`, `ENABLE_AUTORESTART` and `DISABLE_AUTORESTART`. They depend on `kill`/`waitpid` semantics, or their code is empty or undefined.
- The child-monitor thread and the restart budget: its code is not part of this model.
- Command-line parsing, `set_stdout` and logging. The output file and retry budget from the configuration are parameters.
- `CountNuls`: counts with an unbounded integer. The C counter is an `int`, whose overflow for payloads with more than 2^31 - 1 NUL bytes is not modelled. `pid_t` and `max_retries` are likewise unbounded integers.
- `AddProcess`: strings are immutable values, so a copy and a shared pointer cannot be told apart. That the record does not alias the argument array and the payload buffer, which the handler frees right after the call (`free(argv); free(command)`, daemon.c:67-68), holds by construction and is not proved. Those two frees are not modelled either.
- `FindProcessWithPid`: the table is a value, so "does not modify the list" holds by construction and is not stated as a contract.

## Findings

| source | as written | input that shows it | evidently intended | confidence | as-written member | corrected member |
|---|---|---|---|---|---|---|
| daemon.c:59-65 | `argv[0]` and `&argv[1]` are passed to `new_process` without checking that at least one string was decoded. For a payload with no NUL, `argv` has a single NULL slot. The program passed is NULL, which `add_process` hands to `strlen`, and the argument vector points one past the array, which `add_process` reads as `argv[0]`. | any payload with no NUL byte, for example the empty payload (`size` 0); see `NewProcess.EmptyPayloadBreaksLaunch` | a command with no program string is refused with an error and the table is unchanged | not executed | `NewProcess.LaunchAsWritten` (exhibited by `NewProcess.NulFreePayloadBreaksLaunch`) | `NewProcess.HandleNewProcess` (reading: `NewProcess.NewProcessRequest`) |
