/**
 * The command-line handling of main.cpp: the flag search `FindCommandLineParam`, the
 * unsigned-integer flag reader `parseIntParam`, and the four required flags that `main`
 * checks, in order, before it touches any file.
 */
module CommandLine {
  import opened Wrappers

  /** The C `unsigned int` that `sscanf("%u")` stores into. */
  type U32 = x: int | 0 <= x < 0x1_0000_0000

  /** `argv[i]` is the flag `param` and a value follows it. */
  predicate FlagAt(argv: seq<string>, param: string, i: int)
  {
    0 <= i && i + 1 < |argv| && argv[i] == param
  }

  /** The token after the first occurrence of `param`, at or after position `from`, that has one. */
  function FlagValueFrom(argv: seq<string>, param: string, from: nat): Option<string>
    decreases |argv| - from
  {
    if from >= |argv| then None
    else if FlagAt(argv, param, from) then Some(argv[from + 1])
    else FlagValueFrom(argv, param, from + 1)
  }

  /** The value of the flag `param`, as `FindCommandLineParam` finds it. */
  function FlagValue(argv: seq<string>, param: string): Option<string>
  {
    FlagValueFrom(argv, param, 0)
  }

  /** Searching from `from` finds nothing exactly when no later position holds the flag with a value. */
  lemma {:induction false} FlagValueFromNone(argv: seq<string>, param: string, from: nat)
    ensures FlagValueFrom(argv, param, from).None?
        <==> forall i :: from <= i ==> !FlagAt(argv, param, i)
    decreases |argv| - from
  {
    if from < |argv| {
      FlagValueFromNone(argv, param, from + 1);
    }
  }

  /** Searching from `from` returns the token after the first flag position at or after `from`. */
  lemma {:induction false} FlagValueFromFirst(argv: seq<string>, param: string, from: nat, i: nat)
    requires from <= i && FlagAt(argv, param, i)
    requires forall j :: from <= j < i ==> !FlagAt(argv, param, j)
    ensures FlagValueFrom(argv, param, from) == Some(argv[i + 1])
    decreases i - from
  {
    if from < i {
      FlagValueFromFirst(argv, param, from + 1, i);
    }
  }

  /**
   * No value is found exactly when every occurrence of the flag is the last argument
   * (or there is none).
   */
  lemma FlagValueNone(argv: seq<string>, param: string)
    ensures FlagValue(argv, param).None? <==> forall i :: !FlagAt(argv, param, i)
  {
    FlagValueFromNone(argv, param, 0);
  }

  /** The value found is `argv[i + 1]` for the smallest `i` where the flag has a successor. */
  lemma FlagValueFirst(argv: seq<string>, param: string, i: nat)
    requires FlagAt(argv, param, i)
    requires forall j :: 0 <= j < i ==> !FlagAt(argv, param, j)
    ensures FlagValue(argv, param) == Some(argv[i + 1])
  {
    FlagValueFromFirst(argv, param, 0, i);
  }

  /**
   * `FindCommandLineParam`: scans `argv` left to right and stops at the first `param`
   * that has a successor; the null pointer of the source is `None`.
   */
  method FindCommandLineParam(param: string, argv: seq<string>) returns (token: Option<string>)
    ensures token == FlagValue(argv, param)
  {
    token := None;
    var i := 0;
    while i < |argv|
      invariant 0 <= i <= |argv|
      invariant FlagValueFrom(argv, param, i) == FlagValue(argv, param)
    {
      if argv[i] == param {
        if i + 1 < |argv| {
          token := Some(argv[i + 1]);
          break;
        }
      }
      i := i + 1;
    }
  }

  /**
   * `parseIntParam`: looks the flag up and converts its token with `parse`, the model of
   * `sscanf(token, "%u,", &out)` (the C conversion itself is not modelled). On any failure
   * the caller's variable, `out0` here, is left as it was.
   */
  method ParseIntParam(param: string, argv: seq<string>, parse: string -> Option<U32>, out0: U32)
    returns (ok: bool, out: U32)
    ensures ok <==> FlagValue(argv, param).Some? && parse(FlagValue(argv, param).value).Some?
    ensures ok ==> out == parse(FlagValue(argv, param).value).value
    ensures !ok ==> out == out0
  {
    out := out0;
    var token := FindCommandLineParam(param, argv);
    if token.None? {
      return false, out;
    }
    var r := parse(token.value);
    if r.None? {
      ok := false;
    } else {
      ok, out := true, r.value;
    }
  }

  /** The settings `main` reads from its four required flags. */
  datatype Options = Options(inFile: string, outFile: string, outFaces: U32, upsample: U32)

  /** Which required flag was missing or unreadable; `main` prints 1, 2, 3 or 4 before exiting. */
  datatype ArgumentError = MissingIn | MissingOut | BadOutFaces | BadUpsample

  /** The options `main` accepts, or the first check that fails, in the order `main` makes them. */
  function OptionsOf(argv: seq<string>, parse: string -> Option<U32>): Result<Options, ArgumentError>
  {
    var inFile := FlagValue(argv, "-in");
    var outFile := FlagValue(argv, "-out");
    var faces := FlagValue(argv, "-outfaces");
    var up := FlagValue(argv, "-upsample");
    if inFile.None? then Failure(MissingIn)
    else if outFile.None? then Failure(MissingOut)
    else if faces.None? || parse(faces.value).None? then Failure(BadOutFaces)
    else if up.None? || parse(up.value).None? then Failure(BadUpsample)
    else Success(Options(inFile.value, outFile.value, parse(faces.value).value, parse(up.value).value))
  }

  /**
   * If any of the four flags lacks a value, the options are rejected; and when they are
   * accepted, every field is the value that follows its flag.
   */
  lemma OptionsNeedEveryFlag(argv: seq<string>, parse: string -> Option<U32>)
    ensures (forall i :: !FlagAt(argv, "-in", i)) ==> OptionsOf(argv, parse) == Failure(MissingIn)
    ensures (forall i :: !FlagAt(argv, "-out", i)) ==> OptionsOf(argv, parse).Failure?
    ensures (forall i :: !FlagAt(argv, "-outfaces", i)) ==> OptionsOf(argv, parse).Failure?
    ensures (forall i :: !FlagAt(argv, "-upsample", i)) ==> OptionsOf(argv, parse).Failure?
    ensures OptionsOf(argv, parse).Success? ==>
              Some(OptionsOf(argv, parse).value.inFile) == FlagValue(argv, "-in") &&
              Some(OptionsOf(argv, parse).value.outFile) == FlagValue(argv, "-out") &&
              FlagValue(argv, "-outfaces").Some? &&
              parse(FlagValue(argv, "-outfaces").value) == Some(OptionsOf(argv, parse).value.outFaces) &&
              FlagValue(argv, "-upsample").Some? &&
              parse(FlagValue(argv, "-upsample").value) == Some(OptionsOf(argv, parse).value.upsample)
  {
    FlagValueNone(argv, "-in");
    FlagValueNone(argv, "-out");
    FlagValueNone(argv, "-outfaces");
    FlagValueNone(argv, "-upsample");
  }

  /** `main`'s lines 76-93: read the four required flags, aborting at the first that fails. */
  method ParseOptions(argv: seq<string>, parse: string -> Option<U32>)
    returns (r: Result<Options, ArgumentError>)
    ensures r == OptionsOf(argv, parse)
  {
    var inFile := FindCommandLineParam("-in", argv);
    if inFile.None? {
      return Failure(MissingIn);
    }
    var outFile := FindCommandLineParam("-out", argv);
    if outFile.None? {
      return Failure(MissingOut);
    }
    var okFaces, outFaces := ParseIntParam("-outfaces", argv, parse, 0);
    if !okFaces {
      return Failure(BadOutFaces);
    }
    var okUp, upsample := ParseIntParam("-upsample", argv, parse, 0);
    if !okUp {
      return Failure(BadUpsample);
    }
    r := Success(Options(inFile.value, outFile.value, outFaces, upsample));
  }
}
