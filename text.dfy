/**
 * Splitting text on a separator character and joining it back, as Rust's
 * `str::split` and `[String]::join` do for a one-character separator.
 */
module Text {

  function Count(s: string, c: char): nat {
    if s == [] then 0 else (if s[0] == c then 1 else 0) + Count(s[1..], c)
  }

  /**
   * `s.split(sep)`: the pieces between separators, empty ones included, so
   * that the empty text gives one empty piece.
   */
  function Split(s: string, sep: char): (pieces: seq<string>)
    ensures |pieces| == Count(s, sep) + 1
    ensures NoSeparator(pieces, sep)
  {
    if s == [] then [""]
    else if s[0] == sep then [""] + Split(s[1..], sep)
    else
      var rest := Split(s[1..], sep);
      [[s[0]] + rest[0]] + rest[1..]
  }

  /** `pieces.join(sep)`: the pieces in order with one separator between each two. */
  function Join(pieces: seq<string>, sep: char): (s: string)
    ensures pieces != [] ==> |s| == TotalLength(pieces) + |pieces| - 1
  {
    if pieces == [] then ""
    else if |pieces| == 1 then pieces[0]
    else pieces[0] + [sep] + Join(pieces[1..], sep)
  }

  function TotalLength(pieces: seq<string>): nat {
    if pieces == [] then 0 else |pieces[0]| + TotalLength(pieces[1..])
  }

  predicate NoSeparator(pieces: seq<string>, sep: char) {
    forall i :: 0 <= i < |pieces| ==> sep !in pieces[i]
  }

  /** Separator-free pieces join to a text with one separator fewer than there are pieces. */
  lemma {:induction false} JoinCount(pieces: seq<string>, sep: char)
    requires pieces != [] && NoSeparator(pieces, sep)
    ensures Count(Join(pieces, sep), sep) == |pieces| - 1
    decreases |pieces|
  {
    CountAbsent(pieces[0], sep);
    if |pieces| > 1 {
      var tail := Join(pieces[1..], sep);
      JoinCount(pieces[1..], sep);
      assert pieces[0] + [sep] + tail == pieces[0] + ([sep] + tail);
      CountAppend(pieces[0], [sep] + tail, sep);
      assert ([sep] + tail)[1..] == tail;
    }
  }

  lemma {:induction false} CountAppend(s: string, t: string, c: char)
    ensures Count(s + t, c) == Count(s, c) + Count(t, c)
    decreases |s|
  {
    if s == [] {
      assert s + t == t;
    } else {
      assert (s + t)[1..] == s[1..] + t;
      CountAppend(s[1..], t, c);
    }
  }

  lemma {:induction false} CountAbsent(s: string, c: char)
    ensures c !in s ==> Count(s, c) == 0
    decreases |s|
  {
    if s != [] {
      CountAbsent(s[1..], c);
    }
  }

  /** Joining the pieces with the separator gives back the split text. */
  lemma {:induction false} JoinSplit(s: string, sep: char)
    ensures Join(Split(s, sep), sep) == s
    decreases |s|
  {
    if s != [] {
      var rest := Split(s[1..], sep);
      JoinSplit(s[1..], sep);
      if s[0] == sep {
        assert Split(s, sep) == [""] + rest;
        JoinFront("", rest, sep);
      } else {
        assert Split(s, sep) == [[s[0]] + rest[0]] + rest[1..];
        JoinExtendFirst(s[0], rest, sep);
      }
      assert s == [s[0]] + s[1..];
    }
  }

  /** Joining behind an extra first piece puts that piece and a separator in front. */
  lemma JoinFront(first: string, pieces: seq<string>, sep: char)
    requires pieces != []
    ensures Join([first] + pieces, sep) == first + [sep] + Join(pieces, sep)
  {
    assert ([first] + pieces)[1..] == pieces;
  }

  /** Extending the first piece at the front extends the joined text at the front. */
  lemma JoinExtendFirst(c: char, pieces: seq<string>, sep: char)
    requires pieces != []
    ensures Join([[c] + pieces[0]] + pieces[1..], sep) == [c] + Join(pieces, sep)
  {
    var extended := [[c] + pieces[0]] + pieces[1..];
    if |pieces| > 1 {
      assert extended[1..] == pieces[1..];
      assert Join(extended, sep) == [c] + pieces[0] + [sep] + Join(pieces[1..], sep);
    }
  }

  /** Splitting a join of separator-free pieces gives back the pieces. */
  lemma {:induction false} SplitJoin(pieces: seq<string>, sep: char)
    requires |pieces| >= 1 && NoSeparator(pieces, sep)
    ensures Split(Join(pieces, sep), sep) == pieces
    decreases |pieces|
  {
    if |pieces| == 1 {
      SplitPiece(pieces[0], [], sep);
      assert pieces[0] + [] == pieces[0];
    } else {
      var tail := Join(pieces[1..], sep);
      SplitJoin(pieces[1..], sep);
      SplitPiece(pieces[0], [sep] + tail, sep);
      assert pieces[0] + [sep] + tail == pieces[0] + ([sep] + tail);
      assert ([sep] + tail)[1..] == tail;
      assert Split([sep] + tail, sep) == [""] + pieces[1..];
      assert pieces[0] + "" == pieces[0];
      assert [pieces[0]] + pieces[1..] == pieces;
    }
  }

  /** A separator-free prefix lands at the front of the first piece. */
  lemma {:induction false} SplitPiece(w: string, t: string, sep: char)
    requires sep !in w
    requires t == [] || t[0] == sep
    ensures Split(w + t, sep) == [w + Split(t, sep)[0]] + Split(t, sep)[1..]
    decreases |w|
  {
    if w == [] {
      assert w + t == t;
      var r := Split(t, sep);
      assert [r[0]] + r[1..] == r;
    } else {
      assert (w + t)[0] == w[0] && (w + t)[1..] == w[1..] + t;
      SplitPiece(w[1..], t, sep);
      assert [w[0]] + (w[1..] + Split(t, sep)[0]) == w + Split(t, sep)[0];
    }
  }
}
