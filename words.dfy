/**
  Whitespace tokenisation and single-space joining of text.

  The abstract word count is the length of Python's argument-less
  `str.split()`: the maximal runs of non-whitespace characters.  The title
  corpus handed to the word cloud is the titles joined with one space each.
 */
module Words {

  /** The characters for which Python's `str.isspace()` holds. */
  predicate IsSpace(c: char) {
    c == ' ' || '\t' <= c <= '\r' || '\U{1C}' <= c <= '\U{1F}' || c == '\U{85}' || c == '\U{A0}'
    || c == '\U{1680}' || '\U{2000}' <= c <= '\U{200A}' || c == '\U{2028}' || c == '\U{2029}'
    || c == '\U{202F}' || c == '\U{205F}' || c == '\U{3000}'
  }

  predicate AllSpace(s: string) {
    forall i :: 0 <= i < |s| ==> IsSpace(s[i])
  }

  /** A token of `str.split()`: non-empty and free of whitespace. */
  predicate IsWord(w: string) {
    w != [] && forall i :: 0 <= i < |w| ==> !IsSpace(w[i])
  }

  /** Length of the run of non-whitespace characters that starts `s`. */
  function TokenLength(s: string): (n: nat)
    ensures n <= |s|
    ensures forall i :: 0 <= i < n ==> !IsSpace(s[i])
    ensures n < |s| ==> IsSpace(s[n])
  {
    if s == [] || IsSpace(s[0]) then 0 else 1 + TokenLength(s[1..])
  }

  /** Python's `s.split()`: the maximal non-whitespace runs of `s`, in order. */
  function Split(s: string): (ws: seq<string>)
    ensures forall k :: 0 <= k < |ws| ==> IsWord(ws[k])
    ensures |ws| <= |s|
    decreases |s|
  {
    if s == [] then []
    else if IsSpace(s[0]) then Split(s[1..])
    else
      var n := TokenLength(s);
      [s[..n]] + Split(s[n..])
  }

  /** The abstract word count: `s.split()` followed by `len`. */
  function WordCount(s: string): (n: nat)
    ensures n <= |s|
    ensures s != [] && !IsSpace(s[0]) ==> n >= 1
  {
    |Split(s)|
  }

  /**
    Independent count of maximal non-whitespace runs: one for every
    non-whitespace character that does not continue a run.
   */
  function RunsAfter(s: string, inRun: bool): nat {
    if s == [] then 0
    else if IsSpace(s[0]) then RunsAfter(s[1..], false)
    else (if inRun then 0 else 1) + RunsAfter(s[1..], true)
  }

  function RunCount(s: string): nat {
    RunsAfter(s, false)
  }

  lemma {:induction false} RunsAfterSkipsToken(s: string)
    ensures RunsAfter(s, true) == RunsAfter(s[TokenLength(s)..], true)
  {
    if s != [] && !IsSpace(s[0]) {
      RunsAfterSkipsToken(s[1..]);
      assert s[1..][TokenLength(s[1..])..] == s[TokenLength(s)..];
    }
  }

  /** The word count is the number of maximal whitespace-free runs. */
  lemma {:induction false} WordCountIsRunCount(s: string)
    ensures WordCount(s) == RunCount(s)
    decreases |s|
  {
    if s == [] {
    } else if IsSpace(s[0]) {
      WordCountIsRunCount(s[1..]);
    } else {
      var n := TokenLength(s);
      var rest := s[n..];
      WordCountIsRunCount(rest);
      assert RunsAfter(rest, true) == RunsAfter(rest, false);
      RunsAfterSkipsToken(s[1..]);
      assert s[1..][TokenLength(s[1..])..] == rest;
    }
  }

  /** An abstract is counted as zero words exactly when it is all whitespace. */
  lemma {:induction false} WordCountZeroIff(s: string)
    ensures WordCount(s) == 0 <==> AllSpace(s)
    decreases |s|
  {
    if s != [] {
      WordCountZeroIff(s[1..]);
      if IsSpace(s[0]) {
        assert AllSpace(s) <==> AllSpace(s[1..]) by {
          if AllSpace(s[1..]) {
            forall i | 0 <= i < |s| ensures IsSpace(s[i]) {
              if i > 0 { assert s[i] == s[1..][i - 1]; }
            }
          }
        }
      }
    }
  }

  /** Concatenation of a sequence of words. */
  function Concat(ws: seq<string>): string {
    if ws == [] then [] else ws[0] + Concat(ws[1..])
  }

  /** The non-whitespace characters of `s`, in order. */
  function Squeeze(s: string): (t: string)
    ensures |t| <= |s|
    ensures forall i :: 0 <= i < |t| ==> !IsSpace(t[i])
  {
    if s == [] then [] else if IsSpace(s[0]) then Squeeze(s[1..]) else [s[0]] + Squeeze(s[1..])
  }

  lemma {:induction false} SqueezeTokenPrefix(s: string, n: nat)
    requires n <= |s|
    requires forall i :: 0 <= i < n ==> !IsSpace(s[i])
    ensures Squeeze(s) == s[..n] + Squeeze(s[n..])
  {
    if n > 0 {
      SqueezeTokenPrefix(s[1..], n - 1);
      assert s[1..][n - 1..] == s[n..];
      assert s[..n] == [s[0]] + s[1..][..n - 1];
    }
  }

  /** Splitting loses only whitespace: the words put together are the other characters. */
  lemma {:induction false} SplitKeepsCharacters(s: string)
    ensures Concat(Split(s)) == Squeeze(s)
    decreases |s|
  {
    if s != [] {
      if IsSpace(s[0]) {
        SplitKeepsCharacters(s[1..]);
      } else {
        var n := TokenLength(s);
        SplitKeepsCharacters(s[n..]);
        SqueezeTokenPrefix(s, n);
        assert Split(s)[1..] == Split(s[n..]);
      }
    }
  }

  /** Python's `" ".join(ws)`. */
  function JoinWithSpaces(ws: seq<string>): (s: string)
    ensures ws != [] ==> |s| == |Concat(ws)| + |ws| - 1
    ensures ws == [] ==> s == []
  {
    if ws == [] then []
    else if |ws| == 1 then ws[0]
    else ws[0] + " " + JoinWithSpaces(ws[1..])
  }

  /** Joining two non-empty lists of pieces puts exactly one space between their joins. */
  lemma {:induction false} JoinWithSpacesAppend(a: seq<string>, b: seq<string>)
    requires a != [] && b != []
    ensures JoinWithSpaces(a + b) == JoinWithSpaces(a) + " " + JoinWithSpaces(b)
  {
    assert (a + b)[0] == a[0];
    if |a| == 1 {
      assert (a + b)[1..] == b;
    } else {
      assert (a + b)[1..] == a[1..] + b;
      JoinWithSpacesAppend(a[1..], b);
    }
  }

  /** The words of the pieces, piece by piece, in order. */
  function SplitEach(ws: seq<string>): seq<string> {
    if ws == [] then [] else Split(ws[0]) + SplitEach(ws[1..])
  }

  lemma {:induction false} TokenLengthAppend(a: string, b: string)
    requires TokenLength(a) < |a| || (b != [] && IsSpace(b[0]))
    ensures TokenLength(a + b) == TokenLength(a)
  {
    if a != [] && !IsSpace(a[0]) {
      TokenLengthAppend(a[1..], b);
      assert (a + b)[1..] == a[1..] + b;
    }
  }

  /** A whitespace character separates the words on either side of it. */
  lemma {:induction false} SplitAppendSpaced(a: string, b: string)
    requires b != [] && IsSpace(b[0])
    ensures Split(a + b) == Split(a) + Split(b)
    decreases |a|
  {
    if a == [] {
      assert a + b == b;
    } else if IsSpace(a[0]) {
      SplitAppendSpaced(a[1..], b);
      assert (a + b)[0] == a[0] && (a + b)[1..] == a[1..] + b;
      SplitLeadingSpace(a + b);
      SplitLeadingSpace(a);
    } else {
      var n := TokenLength(a);
      SplitAppendSpaced(a[n..], b);
      SplitAppendAfterWord(a, b);
    }
  }

  /** Splitting `a + b` when `a` starts with a word: that word, then the rest of `a + b`. */
  lemma SplitAppendAfterWord(a: string, b: string)
    requires a != [] && !IsSpace(a[0]) && b != [] && IsSpace(b[0])
    ensures Split(a + b) == [a[..TokenLength(a)]] + Split(a[TokenLength(a)..] + b)
    ensures Split(a) == [a[..TokenLength(a)]] + Split(a[TokenLength(a)..])
  {
    var n := TokenLength(a);
    TokenLengthAppend(a, b);
    assert (a + b)[0] == a[0];
    assert (a + b)[..n] == a[..n];
    assert (a + b)[n..] == a[n..] + b;
    SplitLeadingWord(a + b);
    SplitLeadingWord(a);
  }

  lemma SplitLeadingSpace(s: string)
    requires s != [] && IsSpace(s[0])
    ensures Split(s) == Split(s[1..])
  {
  }

  lemma SplitLeadingWord(s: string)
    requires s != [] && !IsSpace(s[0])
    ensures Split(s) == [s[..TokenLength(s)]] + Split(s[TokenLength(s)..])
  {
  }

  /** The words of a space-joined text are the words of its pieces, in order. */
  lemma {:induction false} SplitJoin(ws: seq<string>)
    ensures Split(JoinWithSpaces(ws)) == SplitEach(ws)
  {
    if |ws| == 1 {
      assert SplitEach(ws[1..]) == [];
    } else if |ws| > 1 {
      SplitJoin(ws[1..]);
      var rest := " " + JoinWithSpaces(ws[1..]);
      assert ws[0] + " " + JoinWithSpaces(ws[1..]) == ws[0] + rest;
      SplitAppendSpaced(ws[0], rest);
      assert rest == [' '] + JoinWithSpaces(ws[1..]);
      assert Split(rest) == Split(JoinWithSpaces(ws[1..]));
    }
  }

  lemma SplitWord(w: string)
    requires IsWord(w)
    ensures Split(w) == [w]
  {
    assert TokenLength(w) == |w|;
    assert !IsSpace(w[0]);
    assert w[..|w|] == w && w[|w|..] == [];
  }

  /** Joining words with spaces and splitting again gives the same words back. */
  lemma {:induction false} SplitJoinWords(ws: seq<string>)
    requires forall k :: 0 <= k < |ws| ==> IsWord(ws[k])
    ensures Split(JoinWithSpaces(ws)) == ws
  {
    SplitJoin(ws);
    SplitEachWords(ws);
  }

  lemma {:induction false} SplitEachWords(ws: seq<string>)
    requires forall k :: 0 <= k < |ws| ==> IsWord(ws[k])
    ensures SplitEach(ws) == ws
  {
    if ws != [] {
      SplitWord(ws[0]);
      SplitEachWords(ws[1..]);
    }
  }

  /** Re-tokenising the single-spaced rendering of a text's words gives the same words. */
  lemma SplitIdempotent(s: string)
    ensures Split(JoinWithSpaces(Split(s))) == Split(s)
  {
    SplitJoinWords(Split(s));
  }
}
