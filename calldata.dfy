/**
 * The last step of `prove`: the proving backend's calldata text is stripped
 * of quotes, brackets, spaces and newlines, split on commas, each piece read
 * as a base-16 256-bit integer, and the values laid out positionally into a
 * `Proof`.
 */
module Calldata {
  import opened Wrappers
  import opened Numerals
  import opened Text

  type Pair = s: seq<U256> | |s| == 2 witness [0, 0]

  const ZeroPair: Pair := [0, 0]

  type PairOfPairs = s: seq<Pair> | |s| == 2 witness [ZeroPair, ZeroPair]

  /** A Groth16 proof as an on-chain verifier takes it, followed by the public inputs. */
  datatype Proof = Proof(a: Pair, b: PairOfPairs, c: Pair, public: seq<U256>)

  datatype CalldataError =
    | InvalidHexToken(position: nat)   // `from_str_radix` rejected the token at this position
    | TooFewValues(count: nat)         // fewer than 8 values: the source panics slicing `data`

  // ---------------------------------------------------------------------
  // Normalisation
  // ---------------------------------------------------------------------

  /** The characters normalisation deletes: quote, `[`, `]`, space and newline. */
  const Stripped: set<char> := {'"', '[', ']', ' ', '\n'}

  /** `s.replace(c, "")` for a one-character pattern. */
  function RemoveAll(s: string, c: char): (r: string)
    ensures c !in r
    ensures forall x :: x in r ==> x in s
    ensures |r| + Count(s, c) == |s|
  {
    if s == [] then [] else (if s[0] == c then [] else [s[0]]) + RemoveAll(s[1..], c)
  }

  /** The five chained `replace` calls, in the source's order. */
  function Normalize(text: string): (r: string)
    ensures forall i :: 0 <= i < |r| ==> r[i] !in Stripped
    ensures |r| <= |text|
  {
    RemoveAll(RemoveAll(RemoveAll(RemoveAll(RemoveAll(text, '"'), '['), ']'), ' '), '\n')
  }

  /** Reference definition: the characters of `s` outside `Stripped`, in their order. */
  function Kept(s: string): (r: string)
    ensures forall i :: 0 <= i < |r| ==> r[i] !in Stripped
  {
    if s == [] then [] else (if s[0] in Stripped then [] else [s[0]]) + Kept(s[1..])
  }

  lemma {:induction false} RemoveAllAppend(s: string, t: string, c: char)
    ensures RemoveAll(s + t, c) == RemoveAll(s, c) + RemoveAll(t, c)
    decreases |s|
  {
    if s == [] {
      assert s + t == t;
    } else {
      assert (s + t)[1..] == s[1..] + t;
      RemoveAllAppend(s[1..], t, c);
    }
  }

  /** The chained replacements delete exactly the stripped characters and keep the rest in order. */
  lemma {:induction false} NormalizeIsKept(text: string)
    ensures Normalize(text) == Kept(text)
    decreases |text|
  {
    if text != [] {
      assert text == [text[0]] + text[1..];
      NormalizeAppend([text[0]], text[1..]);
      NormalizeChar(text[0]);
      NormalizeIsKept(text[1..]);
    }
  }

  lemma NormalizeAppend(s: string, t: string)
    ensures Normalize(s + t) == Normalize(s) + Normalize(t)
  {
    var s1, t1 := RemoveAll(s, '"'), RemoveAll(t, '"');
    RemoveAllAppend(s, t, '"');
    var s2, t2 := RemoveAll(s1, '['), RemoveAll(t1, '[');
    RemoveAllAppend(s1, t1, '[');
    var s3, t3 := RemoveAll(s2, ']'), RemoveAll(t2, ']');
    RemoveAllAppend(s2, t2, ']');
    var s4, t4 := RemoveAll(s3, ' '), RemoveAll(t3, ' ');
    RemoveAllAppend(s3, t3, ' ');
    RemoveAllAppend(s4, t4, '\n');
  }

  lemma NormalizeChar(x: char)
    ensures Normalize([x]) == if x in Stripped then [] else [x]
  {
    RemoveAllChar(x, '"');
    var s1 := RemoveAll([x], '"');
    if x == '"' {
      RemoveAllEmpty('[');
      RemoveAllEmpty(']');
      RemoveAllEmpty(' ');
      RemoveAllEmpty('\n');
    } else {
      RemoveAllChar(x, '[');
      if x == '[' {
        RemoveAllEmpty(']');
        RemoveAllEmpty(' ');
        RemoveAllEmpty('\n');
      } else {
        RemoveAllChar(x, ']');
        if x == ']' {
          RemoveAllEmpty(' ');
          RemoveAllEmpty('\n');
        } else {
          RemoveAllChar(x, ' ');
          if x == ' ' {
            RemoveAllEmpty('\n');
          } else {
            RemoveAllChar(x, '\n');
          }
        }
      }
    }
  }

  lemma RemoveAllChar(x: char, c: char)
    ensures RemoveAll([x], c) == if x == c then [] else [x]
  {
    assert [x][1..] == [];
  }

  lemma RemoveAllEmpty(c: char)
    ensures RemoveAll([], c) == []
  {
  }

  lemma {:induction false} KeptAppend(s: string, t: string)
    ensures Kept(s + t) == Kept(s) + Kept(t)
    decreases |s|
  {
    if s == [] {
      assert s + t == t;
    } else {
      assert (s + t)[1..] == s[1..] + t;
      KeptAppend(s[1..], t);
    }
  }

  lemma {:induction false} KeptIdentity(s: string)
    requires forall i :: 0 <= i < |s| ==> s[i] !in Stripped
    ensures Kept(s) == s
    decreases |s|
  {
    if s != [] {
      KeptIdentity(s[1..]);
    }
  }

  /**
   * Normalisation leaves no stripped character, works piece by piece, keeps
   * a character exactly when it is not stripped, and is idempotent.
   */
  lemma NormalizeSpec(s: string, t: string, c: char)
    ensures forall i :: 0 <= i < |Normalize(s)| ==> Normalize(s)[i] !in Stripped
    ensures Normalize(s + t) == Normalize(s) + Normalize(t)
    ensures Normalize([c]) == if c in Stripped then [] else [c]
    ensures Normalize(Normalize(s)) == Normalize(s)
  {
    NormalizeIsKept(s);
    NormalizeIsKept(t);
    NormalizeIsKept(s + t);
    KeptAppend(s, t);
    NormalizeIsKept([c]);
    NormalizeIsKept(Normalize(s));
    KeptIdentity(Kept(s));
  }

  // ---------------------------------------------------------------------
  // Tokens and values
  // ---------------------------------------------------------------------

  /** `calldata.split(",")` after normalisation. */
  function Tokens(text: string): (tokens: seq<string>)
    ensures |tokens| == Count(Normalize(text), ',') + 1
    ensures NoSeparator(tokens, ',')
    ensures Join(tokens, ',') == Normalize(text)
  {
    JoinSplit(Normalize(text), ',');
    Split(Normalize(text), ',')
  }

  /**
   * `map(|k| U256::from_str_radix(k, 16)).collect::<Result<Vec<_>, _>>()`:
   * every token read, or the position of the first token that is not.
   */
  function ParseTokens(tokens: seq<string>): (r: Result<seq<U256>, nat>)
    ensures r.Success? ==> |r.value| == |tokens|
    ensures r.Success? ==> forall i :: 0 <= i < |tokens| ==> ParseHexU256(tokens[i]) == Some(r.value[i])
    ensures r.Failure? ==> r.error < |tokens| && ParseHexU256(tokens[r.error]).None?
    ensures r.Failure? ==> forall i :: 0 <= i < r.error ==> ParseHexU256(tokens[i]).Some?
  {
    if tokens == [] then Success([])
    else match ParseHexU256(tokens[0])
      case None => Failure(0)
      case Some(v) =>
        match ParseTokens(tokens[1..])
        case Success(vs) => Success([v] + vs)
        case Failure(k) => Failure(k + 1)
  }

  // ---------------------------------------------------------------------
  // Layout
  // ---------------------------------------------------------------------

  /** The values in the order the calldata lists them: a, b[0], b[1], c, public. */
  function Flatten(p: Proof): (values: seq<U256>)
    ensures |values| == 8 + |p.public|
    ensures values[0..2] == p.a && values[2..4] == p.b[0] && values[4..6] == p.b[1]
    ensures values[6..8] == p.c && values[8..] == p.public
  {
    p.a + p.b[0] + p.b[1] + p.c + p.public
  }

  /** Values 0-1 go to `a`, 2-5 to `b` row by row, 6-7 to `c`, the rest to `public`. */
  function Layout(values: seq<U256>): (r: Result<Proof, CalldataError>)
    ensures r.Success? <==> |values| >= 8
    ensures r.Success? ==> Flatten(r.value) == values
    ensures r.Success? ==> |r.value.public| == |values| - 8
    ensures r.Failure? ==> r.error == TooFewValues(|values|)
  {
    if |values| < 8 then Failure(TooFewValues(|values|))
    else
      var p := Proof(values[0..2], [values[2..4], values[4..6]], values[6..8], values[8..]);
      assert Flatten(p) == values;
      Success(p)
  }

  /** Laying out a flattened proof gives the proof back. */
  lemma LayoutFlatten(p: Proof)
    ensures Layout(Flatten(p)) == Success(p)
  {
    var values := Flatten(p);
    assert values[0..2] == p.a;
    assert values[2..4] == p.b[0] && values[4..6] == p.b[1];
    assert [values[2..4], values[4..6]] == p.b;
    assert values[6..8] == p.c;
    assert values[8..] == p.public;
  }

  // ---------------------------------------------------------------------
  // The whole parse
  // ---------------------------------------------------------------------

  /**
   * The parse succeeds exactly when every token is a 256-bit hex value and
   * there are at least 8; then the flattened proof is the token values in
   * order. Otherwise it names the first bad token, or the value count.
   */
  function ParseCalldata(text: string): (r: Result<Proof, CalldataError>)
    ensures var tokens := Tokens(text);
      && (r.Success? <==> (|tokens| >= 8 && forall i :: 0 <= i < |tokens| ==> ParseHexU256(tokens[i]).Some?))
      && (r.Success? ==>
            && |Flatten(r.value)| == |tokens|
            && forall i :: 0 <= i < |tokens| ==> ParseHexU256(tokens[i]) == Some(Flatten(r.value)[i]))
      && (r.Failure? && r.error.InvalidHexToken? ==>
            && r.error.position < |tokens|
            && ParseHexU256(tokens[r.error.position]).None?
            && forall i :: 0 <= i < r.error.position ==> ParseHexU256(tokens[i]).Some?)
      && (r.Failure? && r.error.TooFewValues? ==>
            r.error.count == |tokens| < 8 && forall i :: 0 <= i < |tokens| ==> ParseHexU256(tokens[i]).Some?)
  {
    match ParseTokens(Tokens(text))
    case Failure(k) => Failure(InvalidHexToken(k))
    case Success(values) => Layout(values)
  }

  /** Exactly 8 values give no public inputs; 9 give one; 7 are too few. */
  lemma PublicCount(values: seq<U256>)
    ensures |values| == 8 ==> Layout(values).Success? && Layout(values).value.public == []
    ensures |values| == 9 ==> Layout(values).Success? && Layout(values).value.public == [values[8]]
    ensures |values| == 7 ==> Layout(values) == Failure(TooFewValues(7))
  {
    if |values| == 9 {
      assert Flatten(Layout(values).value)[8..] == Layout(values).value.public;
    }
  }

  /** A parse whose first token is rejected fails there, before any count is taken. */
  lemma FirstTokenRejected(text: string)
    requires ParseHexU256(Tokens(text)[0]).None?
    ensures ParseCalldata(text) == Failure(InvalidHexToken(0))
  {
  }

  /**
   * Input outside the assumed hex reader's domain: a `0x`-prefixed first token and empty
   * output (which splits into one empty token) both end in a bad-token error at position 0.
   */
  lemma PrefixedTokenRejected(text: string)
    requires |Tokens(text)[0]| >= 2 && Tokens(text)[0][1] == 'x'
    ensures ParseCalldata(text) == Failure(InvalidHexToken(0))
  {
    var t := Tokens(text)[0];
    assert !IsDigitIn(t[1], 16);
    FirstTokenRejected(text);
  }

  lemma EmptyOutputRejected()
    ensures ParseCalldata("") == Failure(InvalidHexToken(0))
  {
    assert Normalize("") == "";
    assert Tokens("") == [""];
    FirstTokenRejected("");
  }

  /** Every proof is recovered from calldata written as comma-separated hex values. */
  lemma CalldataRoundTrip(p: Proof)
    ensures ParseCalldata(Join(HexTokens(Flatten(p)), ',')) == Success(p)
  {
    var values := Flatten(p);
    var tokens := HexTokens(values);
    HexTokensRead(values);
    PlainTokensJoined(tokens);
    var parsed := ParseTokens(tokens);
    assert parsed.Success? && parsed.value == values;
    LayoutFlatten(p);
  }

  lemma HexTokensRead(values: seq<U256>)
    ensures forall i :: 0 <= i < |values| ==>
      PlainToken(HexTokens(values)[i]) && ParseHexU256(HexTokens(values)[i]) == Some(values[i])
  {
    forall i | 0 <= i < |values|
      ensures PlainToken(HexTokens(values)[i]) && ParseHexU256(HexTokens(values)[i]) == Some(values[i])
    {
      HexRoundTrip(values[i]);
    }
  }

  /** Plain tokens joined by commas survive normalisation and split back into themselves. */
  lemma PlainTokensJoined(tokens: seq<string>)
    requires |tokens| >= 1
    requires forall i :: 0 <= i < |tokens| ==> PlainToken(tokens[i])
    ensures Tokens(Join(tokens, ',')) == tokens
  {
    var text := Join(tokens, ',');
    JoinKept(tokens);
    KeptIdentity(text);
    NormalizeIsKept(text);
    assert NoSeparator(tokens, ',') by {
      forall i | 0 <= i < |tokens| ensures ',' !in tokens[i] {
        assert PlainToken(tokens[i]);
      }
    }
    SplitJoin(tokens, ',');
  }

  function HexTokens(values: seq<U256>): (tokens: seq<string>)
    ensures |tokens| == |values|
  {
    seq(|values|, i requires 0 <= i < |values| => HexString(values[i]))
  }

  lemma {:induction false} JoinKept(pieces: seq<string>)
    requires forall i :: 0 <= i < |pieces| ==> PlainToken(pieces[i])
    ensures forall k :: 0 <= k < |Join(pieces, ',')| ==> Join(pieces, ',')[k] !in Stripped
    decreases |pieces|
  {
    if |pieces| > 1 {
      JoinKept(pieces[1..]);
      var tail := Join(pieces[1..], ',');
      var whole := pieces[0] + [','] + tail;
      forall k | 0 <= k < |whole| ensures whole[k] !in Stripped {
        if k < |pieces[0]| {
          assert whole[k] == pieces[0][k];
        } else if k > |pieces[0]| {
          assert whole[k] == tail[k - |pieces[0]| - 1];
        }
      }
    }
  }

  /** A list of tokens rendered the way the backend prints a flat list: `["t0","t1",...]`. */
  function ListText(tokens: seq<string>): string {
    "[" + QuotedJoin(tokens) + "]"
  }

  function QuotedJoin(tokens: seq<string>): string {
    if tokens == [] then ""
    else if |tokens| == 1 then "\"" + tokens[0] + "\""
    else "\"" + tokens[0] + "\"," + QuotedJoin(tokens[1..])
  }

  predicate PlainToken(t: string) {
    forall j :: 0 <= j < |t| ==> t[j] !in Stripped && t[j] != ','
  }

  /** Normalising a printed list leaves its tokens joined by commas, so splitting recovers them. */
  lemma ListTextTokens(tokens: seq<string>)
    requires |tokens| >= 1
    requires forall i :: 0 <= i < |tokens| ==> PlainToken(tokens[i])
    ensures Tokens(ListText(tokens)) == tokens
  {
    QuotedJoinKept(tokens);
    KeptAppend("[", QuotedJoin(tokens));
    KeptAppend("[" + QuotedJoin(tokens), "]");
    assert Kept("[") == [] && Kept("]") == [];
    NormalizeIsKept(ListText(tokens));
    assert Normalize(ListText(tokens)) == Join(tokens, ',');
    assert NoSeparator(tokens, ',') by {
      forall i | 0 <= i < |tokens| ensures ',' !in tokens[i] {
        assert PlainToken(tokens[i]);
      }
    }
    SplitJoin(tokens, ',');
  }

  lemma {:induction false} QuotedJoinKept(tokens: seq<string>)
    requires forall i :: 0 <= i < |tokens| ==> PlainToken(tokens[i])
    ensures Kept(QuotedJoin(tokens)) == Join(tokens, ',')
    decreases |tokens|
  {
    if |tokens| == 1 {
      KeptQuoted(tokens[0], "");
      assert "\"" + tokens[0] + "\"" + "" == QuotedJoin(tokens);
      assert Kept("") == [];
    } else if |tokens| > 1 {
      var t, rest := tokens[0], QuotedJoin(tokens[1..]);
      assert QuotedJoin(tokens) == "\"" + t + "\"" + ("," + rest) by {
        assert "\"" + t + "\"," + rest == "\"" + t + "\"" + ("," + rest);
      }
      KeptQuoted(t, "," + rest);
      KeptAppend(",", rest);
      assert Kept(",") == ",";
      QuotedJoinKept(tokens[1..]);
    }
  }

  /** A quoted plain token keeps exactly its own characters. */
  lemma KeptQuoted(t: string, suffix: string)
    requires PlainToken(t)
    ensures Kept("\"" + t + "\"" + suffix) == t + Kept(suffix)
  {
    var q := "\"";
    calc {
      Kept(q + t + q + suffix);
      { assert q + t + q + suffix == q + (t + (q + suffix)); }
      Kept(q + (t + (q + suffix)));
      { KeptDropQuote(t + (q + suffix)); }
      Kept(t + (q + suffix));
      { KeptAppend(t, q + suffix); }
      Kept(t) + Kept(q + suffix);
      { KeptIdentity(t); KeptDropQuote(suffix); }
      t + Kept(suffix);
    }
  }

  lemma KeptDropQuote(s: string)
    ensures Kept("\"" + s) == Kept(s)
  {
    KeptAppend("\"", s);
    assert Kept("\"") == [];
  }


  /** A printed list of 256-bit hex tokens parses to the layout of their values. */
  lemma ParseListText(tokens: seq<string>, values: seq<U256>)
    requires |tokens| >= 1 && |values| == |tokens|
    requires forall i :: 0 <= i < |tokens| ==> PlainToken(tokens[i]) && ParseHexU256(tokens[i]) == Some(values[i])
    ensures ParseCalldata(ListText(tokens)) == Layout(values)
  {
    ListTextTokens(tokens);
    var parsed := ParseTokens(tokens);
    assert parsed.Success? && parsed.value == values;
  }

  /** Nine values as the backend prints them: `["1a","2b",...,"92"]`. */
  const NineTokens: seq<string> := ["1a", "2b", "3c", "4d", "5e", "6f", "70", "81", "92"]

  /** The calldata text `["1a","2b","3c","4d","5e","6f","70","81","92"]`. */
  const NineValueText: string := ListText(NineTokens)

  const NineValueProof: Proof := Proof([0x1a, 0x2b], [[0x3c, 0x4d], [0x5e, 0x6f]], [0x70, 0x81], [0x92])

  /**
   * The printed nine-value list parses into `a = [0x1a, 0x2b]`,
   * `b = [[0x3c, 0x4d], [0x5e, 0x6f]]`, `c = [0x70, 0x81]`, `public = [0x92]`.
   */
  lemma NineValueExample()
    ensures ParseCalldata(NineValueText) == Success(NineValueProof)
  {
    var values := NineTokensRead(NineTokens);
    ParseListText(NineTokens, values);
    var values' := ExampleLayout();
    assert values' == values;
  }

  /** The nine values, laid out into the expected proof. */
  lemma ExampleLayout() returns (values: seq<U256>)
    ensures values == [0x1a, 0x2b, 0x3c, 0x4d, 0x5e, 0x6f, 0x70, 0x81, 0x92]
    ensures Layout(values) == Success(NineValueProof)
  {
    values := [0x1a, 0x2b, 0x3c, 0x4d, 0x5e, 0x6f, 0x70, 0x81, 0x92];
    var expected := Proof([0x1a, 0x2b], [[0x3c, 0x4d], [0x5e, 0x6f]], [0x70, 0x81], [0x92]);
    assert Flatten(expected) == values;
    LayoutFlatten(expected);
  }

  /**
   * Each of the nine tokens is plain and reads as its value. The tokens come
   * in as a parameter so that the solver does not evaluate the parse of
   * each literal token eagerly.
   */
  lemma NineTokensRead(tokens: seq<string>) returns (values: seq<U256>)
    requires tokens == NineTokens
    ensures values == [0x1a, 0x2b, 0x3c, 0x4d, 0x5e, 0x6f, 0x70, 0x81, 0x92]
    ensures |tokens| == |values|
    ensures forall i :: 0 <= i < |tokens| ==> PlainToken(tokens[i]) && ParseHexU256(tokens[i]) == Some(values[i])
  {
    values := [0x1a, 0x2b, 0x3c, 0x4d, 0x5e, 0x6f, 0x70, 0x81, 0x92];
    forall i | 0 <= i < |tokens| ensures PlainToken(tokens[i]) && ParseHexU256(tokens[i]) == Some(values[i]) {
      TwoHexDigits(tokens[i]);
    }
  }

  lemma TwoHexDigits(s: string)
    requires |s| == 2 && AllDigitsIn(s, 16)
    ensures ParseHexU256(s) == Some(16 * DigitValue(s[0]) + DigitValue(s[1]))
  {
    assert s[..1][..0] == [];
    assert NumeralValue(s[..1], 16) == DigitValue(s[0]);
  }
}
