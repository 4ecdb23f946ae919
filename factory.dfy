/**
 * LeafAngleDistribution::fromString (src/leaf_angle_distribution.cpp): read a
 * law name and its arguments from a string with stream extraction, compare
 * names without regard to case, and either describe the distribution to
 * construct or fail with the usage error the source throws.
 *
 * std::stod on a non-empty token is the parameter `parse`: the real the token
 * denotes, or None where stod throws; on the empty token stod always throws.
 * The result names the constructor the source would call.
 */
module Factory {
  import opened Wrappers
  import opened MathLib
  import opened LeafAngleDistribution

  /** The object fromString allocates, by class and constructor arguments. */
  datatype Distribution =
    | Uniform
    | Trigonometric(trigType: TrigType)
    | VerhoefBimodal(a: real, b: real)
    | TrowbridgeReitz(alphax: real, alphay: real)
    | Beckmann(alphax: real, alphay: real)

  /** The runtime_error fromString throws, by message. */
  datatype FactoryError =
    | TrigonometricUsage        // format is 'Trigonometric TYPE' ...
    | VerhoefBimodalUsage       // format is 'VerhoefBimodal A B' ...
    | AlphaUsage(name: string)  // format is '<name> ALPHAX ALPHAY' ..., name as typed
    | UnknownName(name: string) // unknown name "<name>"

  // ---------------------------------------------------------------------------
  // Stream extraction
  // ---------------------------------------------------------------------------

  /** White space in the C locale, which `>>` skips and stops at. */
  predicate IsSpace(c: char) {
    c == ' ' || c == '\t' || c == '\n' || c == '\U{B}' || c == '\U{C}' || c == '\r'
  }

  /** A token `>>` can produce from a non-blank stream: non-empty, no white space. */
  predicate IsWord(w: string) {
    |w| > 0 && forall i :: 0 <= i < |w| ==> !IsSpace(w[i])
  }

  /** The longest blank-free prefix of s: what `>>` reads once blanks are skipped. */
  function TakeWord(s: string): (w: string)
    ensures |w| <= |s|
    ensures forall i :: 0 <= i < |w| ==> !IsSpace(w[i])
    ensures s != [] && !IsSpace(s[0]) ==> |w| > 0
    ensures w == s[..|w|] && (|w| == |s| || IsSpace(s[|w|]))
  {
    if s == [] || IsSpace(s[0]) then [] else [s[0]] + TakeWord(s[1..])
  }

  /**
   * The tokens successive `in >> token` extractions produce from a fresh
   * stream over s: each skips white space and takes the longest run of other
   * characters, until one finds the stream blank.
   */
  function Tokens(s: string): (ts: seq<string>)
    ensures forall i :: 0 <= i < |ts| ==> IsWord(ts[i])
    decreases |s|
  {
    if s == [] then []
    else if IsSpace(s[0]) then Tokens(s[1..])
    else var w := TakeWord(s); [w] + Tokens(s[|w|..])
  }

  /**
   * The token the (k+1)-th extraction produces: the k-th token, or the empty
   * string once the stream is exhausted.
   */
  function Word(s: string, k: nat): string {
    Nth(Tokens(s), k)
  }

  function Nth(ts: seq<string>, k: nat): string {
    if k < |ts| then ts[k] else ""
  }

  // ---------------------------------------------------------------------------
  // Case-insensitive comparison
  // ---------------------------------------------------------------------------

  function Lower(c: char): char {
    if 'A' <= c <= 'Z' then (c as int + 32) as char else c
  }

  /**
   * Equality of two ci_strings: same length, equal position by position once
   * folded to lower case. Every string equals itself.
   */
  predicate CiEquals(a: string, b: string)
    ensures a == b ==> CiEquals(a, b)
  {
    |a| == |b| && forall i :: 0 <= i < |a| ==> Lower(a[i]) == Lower(b[i])
  }

  /** s with every letter folded to lower case. */
  function Folded(s: string): (f: string)
    ensures |f| == |s|
  {
    if s == [] then [] else [Lower(s[0])] + Folded(s[1..])
  }

  lemma {:induction false} FoldedAt(s: string, i: int)
    requires 0 <= i < |s|
    ensures Folded(s)[i] == Lower(s[i])
  {
    if i > 0 {
      FoldedAt(s[1..], i - 1);
    }
  }

  /** Two strings are equal up to case exactly when their lower-case forms are equal. */
  lemma CiEqualsFolded(a: string, b: string)
    ensures CiEquals(a, b) <==> Folded(a) == Folded(b)
  {
    if |a| == |b| {
      forall i | 0 <= i < |a| ensures Folded(a)[i] == Lower(a[i]) && Folded(b)[i] == Lower(b[i]) {
        FoldedAt(a, i);
        FoldedAt(b, i);
      }
      if Folded(a) == Folded(b) {
        assert forall i :: 0 <= i < |a| ==> Folded(a)[i] == Folded(b)[i];
      }
    }
  }

  /** The spelling fromString accepts for each trigonometric type. */
  function TypeName(t: TrigType): string {
    match t
    case Planophile => "Planophile"
    case Erectophile => "Erectophile"
    case Plagiophile => "Plagiophile"
    case Extremophile => "Extremophile"
    case Spherical => "Spherical"
  }

  /** The parameters every constructed distribution satisfies. */
  predicate ValidDistribution(d: Distribution) {
    match d
    case VerhoefBimodal(a, b) => Abs(a) + Abs(b) <= 1.0
    case TrowbridgeReitz(ax, ay) => ax > 0.0 && ay > 0.0
    case Beckmann(ax, ay) => ax > 0.0 && ay > 0.0
    case _ => true
  }

  // ---------------------------------------------------------------------------
  // The factory
  // ---------------------------------------------------------------------------

  /**
   * std::stod on one extracted token: an exhausted stream leaves the token
   * empty, on which stod throws; any other token is read by `parse`.
   */
  function Stod(parse: string -> Option<real>, token: string): Option<real> {
    if token == "" then None else parse(token)
  }

  /**
   * The dispatch of fromString on the first three tokens extracted from its
   * argument (an exhausted stream yields empty tokens).
   */
  function FromTokens(name: string, arg1: string, arg2: string, parse: string -> Option<real>): (r: Result<Distribution, FactoryError>)
    ensures r.Success? ==> ValidDistribution(r.value)
    ensures r.Failure? && r.error.UnknownName? ==> r.error.name == name
  {
    if CiEquals(name, "Uniform") then
      Success(Uniform)
    else if CiEquals(name, "Trigonometric") then
      if CiEquals(arg1, "Planophile") then Success(Trigonometric(Planophile))
      else if CiEquals(arg1, "Erectophile") then Success(Trigonometric(Erectophile))
      else if CiEquals(arg1, "Plagiophile") then Success(Trigonometric(Plagiophile))
      else if CiEquals(arg1, "Extremophile") then Success(Trigonometric(Extremophile))
      else if CiEquals(arg1, "Spherical") then Success(Trigonometric(Spherical))
      else Failure(TrigonometricUsage)
    else if CiEquals(name, "VerhoefBimodal") then
      var a, b := Stod(parse, arg1), Stod(parse, arg2);
      if a.Some? && b.Some? && Abs(a.value) + Abs(b.value) <= 1.0 then
        Success(VerhoefBimodal(a.value, b.value))
      else
        Failure(VerhoefBimodalUsage)
    else if CiEquals(name, "TrowbridgeReitz") || CiEquals(name, "Beckmann") then
      var alphax, alphay := Stod(parse, arg1), Stod(parse, arg2);
      if alphax.Some? && alphay.Some? && alphax.value > 0.0 && alphay.value > 0.0 then
        if CiEquals(name, "TrowbridgeReitz") then
          Success(TrowbridgeReitz(alphax.value, alphay.value))
        else
          Success(Beckmann(alphax.value, alphay.value))
      else
        Failure(AlphaUsage(name))
    else
      Failure(UnknownName(name))
  }

  /** LeafAngleDistribution::fromString: extract the tokens, then dispatch. */
  function FromString(args: string, parse: string -> Option<real>): (r: Result<Distribution, FactoryError>)
    ensures r.Success? ==> ValidDistribution(r.value)
    ensures r.Failure? && r.error.UnknownName? ==> r.error.name == Word(args, 0)
  {
    FromTokens(Word(args, 0), Word(args, 1), Word(args, 2), parse)
  }

  // ---------------------------------------------------------------------------
  // What the factory promises
  // ---------------------------------------------------------------------------

  /** "Uniform" in any case gives the uniform law and ignores the rest. */
  lemma UniformIgnoresRest(name: string, arg1: string, arg2: string, parse: string -> Option<real>)
    requires CiEquals(name, "Uniform")
    ensures FromTokens(name, arg1, arg2, parse) == Success(Uniform)
  {
  }

  /**
   * "Trigonometric" gives the law of type t exactly when the second token is
   * t's name in some case; any other or a missing second token gives the
   * 'Trigonometric TYPE' usage error.
   */
  lemma TrigonometricIff(name: string, arg1: string, arg2: string, parse: string -> Option<real>, t: TrigType)
    requires CiEquals(name, "Trigonometric")
    ensures FromTokens(name, arg1, arg2, parse) == Success(Trigonometric(t)) <==> CiEquals(arg1, TypeName(t))
    ensures FromTokens(name, arg1, arg2, parse).Success? || FromTokens(name, arg1, arg2, parse) == Failure(TrigonometricUsage)
    ensures arg1 == "" ==> FromTokens(name, arg1, arg2, parse) == Failure(TrigonometricUsage)
  {
    assert "Erectophile"[0] == 'E' && "Plagiophile"[0] == 'P';
    assert Lower('E') == 'e' && Lower('P') == 'p';
  }

  /** "VerhoefBimodal A B" succeeds exactly when both tokens parse and |A| + |B| <= 1. */
  lemma VerhoefBimodalIff(name: string, arg1: string, arg2: string, parse: string -> Option<real>, a: real, b: real)
    requires CiEquals(name, "VerhoefBimodal")
    ensures FromTokens(name, arg1, arg2, parse) == Success(VerhoefBimodal(a, b)) <==>
      Stod(parse, arg1) == Some(a) && Stod(parse, arg2) == Some(b) && Abs(a) + Abs(b) <= 1.0
    ensures FromTokens(name, arg1, arg2, parse).Success? || FromTokens(name, arg1, arg2, parse) == Failure(VerhoefBimodalUsage)
  {
  }

  /**
   * "TrowbridgeReitz" and "Beckmann" succeed exactly when both alphas parse
   * and are positive; the name picks the variant, and the usage error repeats
   * the name as typed.
   */
  lemma AlphaLawIff(name: string, arg1: string, arg2: string, parse: string -> Option<real>, ax: real, ay: real)
    requires CiEquals(name, "TrowbridgeReitz") || CiEquals(name, "Beckmann")
    ensures var ok := Stod(parse, arg1) == Some(ax) && Stod(parse, arg2) == Some(ay) && ax > 0.0 && ay > 0.0;
      if CiEquals(name, "TrowbridgeReitz")
      then FromTokens(name, arg1, arg2, parse) == Success(TrowbridgeReitz(ax, ay)) <==> ok
      else FromTokens(name, arg1, arg2, parse) == Success(Beckmann(ax, ay)) <==> ok
    ensures FromTokens(name, arg1, arg2, parse).Success? || FromTokens(name, arg1, arg2, parse) == Failure(AlphaUsage(name))
  {
  }

  /**
   * A law that needs two numbers, given fewer than two argument tokens, fails
   * with its usage error: the missing token is empty and stod throws on it.
   */
  lemma MissingArgument(args: string, parse: string -> Option<real>)
    requires |Tokens(args)| < 3
    ensures CiEquals(Word(args, 0), "VerhoefBimodal") ==>
      FromString(args, parse) == Failure(VerhoefBimodalUsage)
    ensures CiEquals(Word(args, 0), "TrowbridgeReitz") || CiEquals(Word(args, 0), "Beckmann") ==>
      FromString(args, parse) == Failure(AlphaUsage(Word(args, 0)))
  {
    assert Word(args, 2) == "";
  }

  /** The five law names, which select a branch of the factory. */
  predicate IsLawName(w: string) {
    CiEquals(w, "Uniform") || CiEquals(w, "Trigonometric") || CiEquals(w, "VerhoefBimodal") ||
    CiEquals(w, "TrowbridgeReitz") || CiEquals(w, "Beckmann")
  }

  /** Any other first token is an unknown name, reported as typed. */
  lemma UnknownNameIff(name: string, arg1: string, arg2: string, parse: string -> Option<real>)
    ensures FromTokens(name, arg1, arg2, parse) == Failure(UnknownName(name)) <==> !IsLawName(name)
  {
  }

  /** A blank argument string, the empty one included, is an unknown name "". */
  lemma BlankIsUnknown(args: string, parse: string -> Option<real>)
    requires forall i :: 0 <= i < |args| ==> IsSpace(args[i])
    ensures FromString(args, parse) == Failure(UnknownName(""))
  {
    TokensOfBlank(args);
  }

  /**
   * Only the case of the law and type names matters: token triples whose first
   * two tokens fold alike and whose numeric tokens parse alike succeed or fail
   * together, and succeed with the same distribution.
   */
  lemma CaseInsensitive(name: string, arg1: string, arg2: string, name': string, arg1': string, arg2': string,
                        parse: string -> Option<real>)
    requires CiEquals(name, name') && CiEquals(arg1, arg1')
    requires Stod(parse, arg1) == Stod(parse, arg1') && Stod(parse, arg2) == Stod(parse, arg2')
    ensures FromTokens(name, arg1, arg2, parse).Success? <==> FromTokens(name', arg1', arg2', parse).Success?
    ensures FromTokens(name, arg1, arg2, parse).Success? ==>
      FromTokens(name, arg1, arg2, parse) == FromTokens(name', arg1', arg2', parse)
  {
    CiTransfer(name, name', "Uniform");
    CiTransfer(name, name', "Trigonometric");
    CiTransfer(name, name', "VerhoefBimodal");
    CiTransfer(name, name', "TrowbridgeReitz");
    CiTransfer(name, name', "Beckmann");
    CiTransfer(arg1, arg1', "Planophile");
    CiTransfer(arg1, arg1', "Erectophile");
    CiTransfer(arg1, arg1', "Plagiophile");
    CiTransfer(arg1, arg1', "Extremophile");
    CiTransfer(arg1, arg1', "Spherical");
  }

  /** Two strings equal up to case are equal up to case to the same literals. */
  lemma CiTransfer(s: string, s': string, lit: string)
    requires CiEquals(s, s')
    ensures CiEquals(s, lit) <==> CiEquals(s', lit)
  {
  }

  // ---------------------------------------------------------------------------
  // Round trip through the textual form
  // ---------------------------------------------------------------------------

  /** Words separated by single blanks. */
  function Join(words: seq<string>): string {
    if words == [] then ""
    else if |words| == 1 then words[0]
    else words[0] + " " + Join(words[1..])
  }

  lemma {:induction false} TakeWordOf(w: string, rest: string)
    requires forall i :: 0 <= i < |w| ==> !IsSpace(w[i])
    requires rest == [] || IsSpace(rest[0])
    ensures TakeWord(w + rest) == w
  {
    if w != [] {
      assert (w + rest)[1..] == w[1..] + rest;
      TakeWordOf(w[1..], rest);
    } else {
      assert w + rest == rest;
    }
  }

  /** A word followed by a blank or nothing is the next token. */
  lemma TokensOfCons(w: string, rest: string)
    requires IsWord(w)
    requires rest == [] || IsSpace(rest[0])
    ensures Tokens(w + rest) == [w] + Tokens(rest)
  {
    TakeWordOf(w, rest);
    assert (w + rest)[|w|..] == rest;
  }

  /** Stream extraction reads back the words of a blank-separated string. */
  lemma {:induction false} TokensOfJoin(words: seq<string>)
    requires forall i :: 0 <= i < |words| ==> IsWord(words[i])
    ensures Tokens(Join(words)) == words
  {
    if |words| == 1 {
      var rest: string := [];
      assert Join(words) == words[0] + rest;
      TokensOfCons(words[0], rest);
    } else if |words| > 1 {
      var tail := Join(words[1..]);
      assert Join(words) == words[0] + (" " + tail);
      TokensOfCons(words[0], " " + tail);
      assert (" " + tail)[1..] == tail;
      TokensOfJoin(words[1..]);
      assert words == [words[0]] + words[1..];
    }
  }

  /** A blank stream, the empty one included, holds no token. */
  lemma {:induction false} TokensOfBlank(s: string)
    requires forall i :: 0 <= i < |s| ==> IsSpace(s[i])
    ensures Tokens(s) == []
  {
    if s != [] {
      TokensOfBlank(s[1..]);
    }
  }

  /**
   * The tokens that name d, given a way `show` to write a real that stod
   * reads back.
   */
  function Words(d: Distribution, show: real -> string): seq<string> {
    match d
    case Uniform => ["Uniform"]
    case Trigonometric(t) => ["Trigonometric", TypeName(t)]
    case VerhoefBimodal(a, b) => ["VerhoefBimodal", show(a), show(b)]
    case TrowbridgeReitz(ax, ay) => ["TrowbridgeReitz", show(ax), show(ay)]
    case Beckmann(ax, ay) => ["Beckmann", show(ax), show(ay)]
  }

  /** The numbers the textual form of d writes out. */
  function Params(d: Distribution): set<real> {
    match d
    case VerhoefBimodal(a, b) => {a, b}
    case TrowbridgeReitz(ax, ay) => {ax, ay}
    case Beckmann(ax, ay) => {ax, ay}
    case _ => {}
  }

  /** The error fromString reports for the textual form of an invalid d. */
  function UsageError(d: Distribution): FactoryError {
    match d
    case VerhoefBimodal(_, _) => VerhoefBimodalUsage
    case TrowbridgeReitz(_, _) => AlphaUsage("TrowbridgeReitz")
    case Beckmann(_, _) => AlphaUsage("Beckmann")
    case _ => TrigonometricUsage
  }

  /** The law and type names, and the shown numbers, contain no white space. */
  lemma WordsAreWords(d: Distribution, show: real -> string)
    requires forall x :: x in Params(d) ==> IsWord(show(x))
    ensures forall i :: 0 <= i < |Words(d, show)| ==> IsWord(Words(d, show)[i])
  {
    LawNamesAreWords();
    TypeNamesAreWords();
  }

  lemma LawNamesAreWords()
    ensures IsWord("Uniform") && IsWord("Trigonometric") && IsWord("VerhoefBimodal")
    ensures IsWord("TrowbridgeReitz") && IsWord("Beckmann")
  {
    assert IsWord("Uniform");
    assert IsWord("Trigonometric");
    assert IsWord("VerhoefBimodal");
    assert IsWord("TrowbridgeReitz");
    assert IsWord("Beckmann");
  }

  lemma TypeNamesAreWords()
    ensures forall t :: IsWord(TypeName(t))
  {
    forall t ensures IsWord(TypeName(t)) {
      match t
      case Planophile => assert IsWord("Planophile");
      case Erectophile => assert IsWord("Erectophile");
      case Plagiophile => assert IsWord("Plagiophile");
      case Extremophile => assert IsWord("Extremophile");
      case Spherical => assert IsWord("Spherical");
    }
  }

  /** Reading back a blank-separated string dispatches on its first three words. */
  lemma FromStringOfJoin(words: seq<string>, parse: string -> Option<real>)
    requires forall i :: 0 <= i < |words| ==> IsWord(words[i])
    ensures FromString(Join(words), parse) == FromTokens(Nth(words, 0), Nth(words, 1), Nth(words, 2), parse)
  {
    TokensOfJoin(words);
  }

  /** The dispatch on the words that name d gives d back, or the law's usage error. */
  lemma RoundTripTokens(d: Distribution, show: real -> string, parse: string -> Option<real>)
    requires forall x :: x in Params(d) ==> show(x) != "" && parse(show(x)) == Some(x)
    ensures var words := Words(d, show);
      FromTokens(Nth(words, 0), Nth(words, 1), Nth(words, 2), parse) ==
      if ValidDistribution(d) then Success(d) else Failure(UsageError(d))
  {
    var words := Words(d, show);
    var name, arg1, arg2 := Nth(words, 0), Nth(words, 1), Nth(words, 2);
    match d
    case Uniform =>
      UniformIgnoresRest(name, arg1, arg2, parse);
    case Trigonometric(t) =>
      TrigonometricIff(name, arg1, arg2, parse, t);
    case VerhoefBimodal(a, b) =>
      VerhoefBimodalIff(name, arg1, arg2, parse, a, b);
    case TrowbridgeReitz(ax, ay) =>
      AlphaLawIff(name, arg1, arg2, parse, ax, ay);
    case Beckmann(ax, ay) =>
      AlphaLawIff(name, arg1, arg2, parse, ax, ay);
  }

  /**
   * Writing a distribution out and reading it back gives the same
   * distribution when its parameters are valid, and the law's usage error
   * when they are not, provided each number d writes is a blank-free token
   * that stod reads back as that number.
   */
  lemma RoundTrip(d: Distribution, show: real -> string, parse: string -> Option<real>)
    requires forall x :: x in Params(d) ==> IsWord(show(x)) && parse(show(x)) == Some(x)
    ensures FromString(Join(Words(d, show)), parse) ==
      if ValidDistribution(d) then Success(d) else Failure(UsageError(d))
  {
    var words := Words(d, show);
    WordsAreWords(d, show);
    FromStringOfJoin(words, parse);
    RoundTripTokens(d, show, parse);
  }

  /**
   * An instance of the round trip: wherever stod reads "0.5" and "0.25" as
   * those numbers, the blank-joined words VerhoefBimodal, 0.5 and 0.25 build
   * that distribution.
   */
  lemma RoundTripInstance(parse: string -> Option<real>)
    requires parse("0.5") == Some(0.5) && parse("0.25") == Some(0.25)
    ensures FromString(Join(["VerhoefBimodal", "0.5", "0.25"]), parse) == Success(VerhoefBimodal(0.5, 0.25))
  {
    var show := (x: real) => if x == 0.5 then "0.5" else "0.25";
    var d := VerhoefBimodal(0.5, 0.25);
    assert IsWord("0.5") && IsWord("0.25");
    RoundTrip(d, show, parse);
    assert Words(d, show) == ["VerhoefBimodal", "0.5", "0.25"];
  }
}
