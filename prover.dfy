/**
 * `prove` itself: build the witness generator's input, run the witness
 * generator, run `snarkjs groth16 prove`, run `snarkjs generatecall`, and
 * parse the calldata it prints. The external programs, the files they read
 * and write, and the UTF-8 decoding of their output are parameters: each is
 * a function from what the program is given to what it does.
 */
module Prover {
  import opened Wrappers
  import opened Numerals
  import opened Calldata
  import opened WitnessInput

  type Bytes = seq<Byte>

  datatype Stage = WitnessGeneration | Groth16Prove | GenerateCall

  /**
   * What `Command::output()` reports: the program could not be started, or it
   * ran to an exit status with its standard output and error, leaving the
   * files it wrote.
   */
  datatype Run<T> = LaunchFailed | Ran(status: int, stdout: Bytes, stderr: Bytes, written: T)

  datatype Tools = Tools(
    // reads the JSON input; writes the witness file
    witnessGenerator: string -> Run<Bytes>,
    // reads the parameters at the path and the witness; writes the proof and public-input files
    groth16Prove: (string, Bytes) -> Run<(Bytes, Bytes)>,
    // reads the public-input and proof files; prints the calldata
    generateCall: (Bytes, Bytes) -> Run<()>,
    // `std::str::from_utf8`
    decodeUtf8: Bytes -> Option<string>)

  /** The errors `prove` returns through `?`. */
  datatype ProveError =
    | CouldNotLaunch(stage: Stage)
    | CalldataNotUtf8
    | BadCalldataToken(position: nat)

  /** The ways `prove` panics instead of returning. */
  datatype Panic =
    | UnexpectedStdout(stage: Stage)       // `assert_eq!(output.stdout.len(), 0)`
    | UnexpectedStderr(stage: Stage)       // `assert_eq!(output.stderr.len(), 0)`
    | TooFewCalldataValues(count: nat)     // slicing `data` past its end

  datatype Outcome = Proved(proof: Proof) | Failed(error: ProveError) | Panicked(panic: Panic)

  function FromCalldata(parsed: Result<Proof, CalldataError>): Outcome {
    match parsed
    case Success(p) => Proved(p)
    case Failure(InvalidHexToken(k)) => Failed(BadCalldataToken(k))
    case Failure(TooFewValues(n)) => Panicked(TooFewCalldataValues(n))
  }

  /**
   * A proof comes back only when the witness generator and the prover both
   * ran and printed nothing, and the calldata printed by `generatecall`
   * decodes and parses to that proof. Output on either stream of the first
   * two programs panics, naming the program, whatever its exit status; a
   * program that cannot be started is an error naming it. Once all three
   * have run, the first two in silence, the outcome is decided by the
   * calldata alone: its parse's proof, the first bad token, or the count.
   */
  function Prove(params: string, inputs: WitnessInputs, tools: Tools): (r: Outcome)
    ensures
      var wg := tools.witnessGenerator(WitnessInputJson(inputs));
      && (wg.LaunchFailed? ==> r == Failed(CouldNotLaunch(WitnessGeneration)))
      && (wg.Ran? && wg.stdout != [] ==> r == Panicked(UnexpectedStdout(WitnessGeneration)))
      && (wg.Ran? && wg.stdout == [] && wg.stderr != [] ==> r == Panicked(UnexpectedStderr(WitnessGeneration)))
    ensures
      var wg := tools.witnessGenerator(WitnessInputJson(inputs));
      wg.Ran? && wg.stdout == [] && wg.stderr == [] ==>
      var pr := tools.groth16Prove(params, wg.written);
      && (pr.LaunchFailed? ==> r == Failed(CouldNotLaunch(Groth16Prove)))
      && (pr.Ran? && pr.stdout != [] ==> r == Panicked(UnexpectedStdout(Groth16Prove)))
      && (pr.Ran? && pr.stdout == [] && pr.stderr != [] ==> r == Panicked(UnexpectedStderr(Groth16Prove)))
    ensures
      var wg := tools.witnessGenerator(WitnessInputJson(inputs));
      wg.Ran? && wg.stdout == [] && wg.stderr == [] ==>
      var pr := tools.groth16Prove(params, wg.written);
      pr.Ran? && pr.stdout == [] && pr.stderr == [] ==>
      var gc := tools.generateCall(pr.written.1, pr.written.0);
      && (gc.LaunchFailed? ==> r == Failed(CouldNotLaunch(GenerateCall)))
      && (gc.Ran? && tools.decodeUtf8(gc.stdout).None? ==> r == Failed(CalldataNotUtf8))
      && (gc.Ran? && tools.decodeUtf8(gc.stdout).Some? ==>
            var parsed := ParseCalldata(tools.decodeUtf8(gc.stdout).value);
            && (parsed.Success? ==> r == Proved(parsed.value))
            && (parsed.Failure? && parsed.error.InvalidHexToken? ==>
                  r == Failed(BadCalldataToken(parsed.error.position)))
            && (parsed.Failure? && parsed.error.TooFewValues? ==>
                  r == Panicked(TooFewCalldataValues(parsed.error.count))))
    ensures r.Proved? ==>
      var wg := tools.witnessGenerator(WitnessInputJson(inputs));
      wg.Ran? && wg.stdout == [] && wg.stderr == [] &&
      var pr := tools.groth16Prove(params, wg.written);
      pr.Ran? && pr.stdout == [] && pr.stderr == [] &&
      var gc := tools.generateCall(pr.written.1, pr.written.0);
      gc.Ran? && tools.decodeUtf8(gc.stdout).Some? &&
      ParseCalldata(tools.decodeUtf8(gc.stdout).value) == Success(r.proof)
  {
    match tools.witnessGenerator(WitnessInputJson(inputs))
    case LaunchFailed => Failed(CouldNotLaunch(WitnessGeneration))
    case Ran(_, out, err, wtns) =>
      if out != [] then Panicked(UnexpectedStdout(WitnessGeneration))
      else if err != [] then Panicked(UnexpectedStderr(WitnessGeneration))
      else match tools.groth16Prove(params, wtns)
        case LaunchFailed => Failed(CouldNotLaunch(Groth16Prove))
        case Ran(_, out', err', files) =>
          if out' != [] then Panicked(UnexpectedStdout(Groth16Prove))
          else if err' != [] then Panicked(UnexpectedStderr(Groth16Prove))
          else match tools.generateCall(files.1, files.0)
            case LaunchFailed => Failed(CouldNotLaunch(GenerateCall))
            case Ran(_, calldata, _, _) =>
              match tools.decodeUtf8(calldata)
              case None => Failed(CalldataNotUtf8)
              case Some(text) => FromCalldata(ParseCalldata(text))
  }

  function ZeroStatus<T>(run: Run<T>): Run<T> {
    match run
    case LaunchFailed => LaunchFailed
    case Ran(_, out, err, written) => Ran(0, out, err, written)
  }

  /** The same programs, reporting success as their exit status every time. */
  function AlwaysExitZero(tools: Tools): Tools {
    Tools(
      json => ZeroStatus(tools.witnessGenerator(json)),
      (path, wtns) => ZeroStatus(tools.groth16Prove(path, wtns)),
      (publicFile, proofFile) => ZeroStatus(tools.generateCall(publicFile, proofFile)),
      tools.decodeUtf8)
  }

  /** The programs' exit statuses are never consulted: only launching and their output matter. */
  lemma ExitStatusIgnored(params: string, inputs: WitnessInputs, tools: Tools)
    ensures Prove(params, inputs, AlwaysExitZero(tools)) == Prove(params, inputs, tools)
  {
  }

  /** What `generatecall` writes to its error stream is never consulted either. */
  lemma GenerateCallStderrIgnored(params: string, inputs: WitnessInputs, tools: Tools, noise: Bytes)
    ensures Prove(params, inputs, WithGenerateCallStderr(tools, noise)) == Prove(params, inputs, tools)
  {
  }

  function WithGenerateCallStderr(tools: Tools, noise: Bytes): Tools {
    tools.(generateCall := (publicFile, proofFile) =>
      match tools.generateCall(publicFile, proofFile)
      case LaunchFailed => LaunchFailed
      case Ran(status, out, _, written) => Ran(status, out, noise, written))
  }
}
