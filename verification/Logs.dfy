/** Transaction log lines, already parsed, and the role each plays on the invocation stack. */
module Logs {
  import opened Wrappers

  // Only the identity of a key matters here; Pubkey(0) is the all-zero default key.
  datatype Pubkey = Pubkey(id: nat)

  const DEFAULT_KEY := Pubkey(0)

  datatype LogEntry =
    | Invoke(program: Pubkey, depth: nat)
    | Success(program: Pubkey)
    | Data(discriminator: seq<nat>, payload: seq<nat>)
    | Return(program: Pubkey, data: seq<nat>)
    | Message(message: string)
    | Consumed(program: Pubkey, used: nat, available: nat)
    | Failed(program: Pubkey, error: string)
    | Truncated
    | Unknown(raw: string)

  datatype FrameEffect =
    | Open(program: Pubkey, depth: nat)
    | Close
    | Cut
    | Body

  function Effect(entry: LogEntry): FrameEffect {
    match entry
    case Invoke(program, depth) => Open(program, depth)
    case Success(_) => Close
    case Failed(_, _) => Close
    case Truncated => Cut
    case Data(_, _) => Body
    case Return(_, _) => Body
    case Message(_) => Body
    case Consumed(_, _, _) => Body
    case Unknown(_) => Body
  }

  // A line of the frame that logs it: neither opens, closes nor cuts anything.
  predicate Plain(entry: LogEntry) {
    !entry.Invoke? && !entry.Success? && !entry.Failed? && !entry.Truncated?
  }

  // The runtime's last line about one program.
  predicate Ends(entry: LogEntry, program: Pubkey) {
    match entry
    case Success(p) => p == program
    case Failed(p, _) => p == program
    case _ => false
  }

  datatype ParsedInstruction = ParsedInstruction(
    program: Pubkey,
    accounts: seq<Pubkey>,
    data: seq<nat>,
    logs: seq<LogEntry>,
    stackHeight: nat,
    parentIndex: Option<nat>,
    instructionIndex: nat)

  datatype Verdict =
    | Ok
    | Truncated
    | Empty
    | ForeignOpen(found: Pubkey)
    | NotOpened
    | DepthMismatch(foundDepth: nat)
    | InteriorInvoke
    | Unterminated

  /** The bracket invariant of one slice, with the source's order of checks. */
  function Audit(program: Pubkey, height: nat, logs: seq<LogEntry>): Verdict {
    if LogEntry.Truncated in logs then Verdict.Truncated
    else if logs == [] then Empty
    else if !logs[0].Invoke? then NotOpened
    else if logs[0].program != program then ForeignOpen(logs[0].program)
    else if logs[0].depth != height then DepthMismatch(logs[0].depth)
    else if exists j :: 1 <= j < |logs| && logs[j].Invoke? then InteriorInvoke
    else
      var last := logs[|logs| - 1];
      if (last.Success? || last.Failed?) && last.program == program then Verdict.Ok else Unterminated
  }

  // The marks of a well-kept slice, each on its own.
  predicate Uncut(logs: seq<LogEntry>) {
    forall j :: 0 <= j < |logs| ==> !logs[j].Truncated?
  }

  predicate OneInvoke(logs: seq<LogEntry>) {
    forall j :: 1 <= j < |logs| ==> !logs[j].Invoke?
  }

  /** What each verdict says of a slice: Ok that it is bracketed by its own program from its own height, and every
      other one names the first thing wrong. */
  lemma {:induction false} AuditMeans(program: Pubkey, height: nat, logs: seq<LogEntry>)
    ensures var v := Audit(program, height, logs);
            && (v == Verdict.Ok <==>
                  |logs| >= 2 && Uncut(logs) && logs[0] == Invoke(program, height) && OneInvoke(logs)
                  && Ends(logs[|logs| - 1], program))
            && (v == Verdict.Truncated <==> !Uncut(logs))
            && (v == Empty <==> |logs| == 0)
            && (v == NotOpened <==> Uncut(logs) && |logs| > 0 && !logs[0].Invoke?)
            && (forall found :: v == ForeignOpen(found) <==>
                  Uncut(logs) && |logs| > 0 && found != program && exists d :: logs[0] == Invoke(found, d))
            && (forall d :: v == DepthMismatch(d) <==>
                  Uncut(logs) && |logs| > 0 && d != height && logs[0] == Invoke(program, d))
            && (v == InteriorInvoke <==>
                  Uncut(logs) && |logs| > 0 && logs[0] == Invoke(program, height) && !OneInvoke(logs))
            && (v == Unterminated <==>
                  Uncut(logs) && |logs| > 0 && logs[0] == Invoke(program, height) && OneInvoke(logs)
                  && !Ends(logs[|logs| - 1], program))
  {
    assert LogEntry.Truncated in logs <==> !Uncut(logs);
    if logs != [] {
      if logs[0].Invoke? {
        assert logs[0] == Invoke(logs[0].program, logs[0].depth);
      }
    }
  }
}
