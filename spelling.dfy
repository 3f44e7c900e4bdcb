/**
  Spelling correction of a text, word by word (scripts/spelling.py).

  The text is split on runs of whitespace, every word is handed to a
  dictionary corrector, words whose correction is falsy (`None` or the empty
  string) are dropped, and the rest are joined with single spaces. The
  corrector itself is a parameter: any function from a word to an optional
  correction.
 */
module Spelling {
  import opened Wrappers

  /** The characters for which Python's `str.isspace()` holds; `str.split()`
      with no argument splits on runs of exactly these. */
  predicate IsSpace(c: char): (b: bool)
    ensures c == ' ' || c == '\t' || c == '\n' || c == '\r' ==> b
    ensures '!' <= c <= '~' ==> !b
  {
    || '\t' <= c <= '\r'            // tab, line feed, vertical tab, form feed, carriage return
    || '\U{1C}' <= c <= '\U{1F}'    // file, group, record and unit separators
    || c == ' '
    || c == '\U{85}' || c == '\U{A0}' || c == '\U{1680}'
    || '\U{2000}' <= c <= '\U{200A}'
    || c == '\U{2028}' || c == '\U{2029}' || c == '\U{202F}' || c == '\U{205F}' || c == '\U{3000}'
  }

  predicate NoSpace(s: string) {
    forall i :: 0 <= i < |s| ==> !IsSpace(s[i])
  }

  predicate AllSpace(s: string) {
    forall i :: 0 <= i < |s| ==> IsSpace(s[i])
  }

  /** A word as `str.split()` yields one: non-empty and free of whitespace. */
  predicate IsWord(w: string) {
    w != [] && NoSpace(w)
  }

  predicate AllWords(ws: seq<string>) {
    forall k :: 0 <= k < |ws| ==> IsWord(ws[k])
  }

  /** Length of the longest whitespace-free prefix of `s`. */
  function WordLength(s: string): (n: nat)
    ensures n <= |s|
    ensures n < |s| ==> IsSpace(s[n])
  {
    if s == [] || IsSpace(s[0]) then 0 else 1 + WordLength(s[1..])
  }

  /** `s.split()`: the maximal whitespace-free runs of `s`, in order. */
  function Words(s: string): (ws: seq<string>)
    ensures |ws| <= |s|
    decreases |s|
  {
    if s == [] then []
    else if IsSpace(s[0]) then Words(s[1..])
    else
      var n := WordLength(s);
      [s[..n]] + Words(s[n..])
  }

  /** `' '.join(ws)`. */
  function Join(ws: seq<string>): (r: string)
    ensures |ws| <= |r| + 1
  {
    if ws == [] then ""
    else if |ws| == 1 then ws[0]
    else ws[0] + " " + Join(ws[1..])
  }

  /** All characters of `s` that are not whitespace, in order. */
  function NonSpace(s: string): string {
    if s == [] then ""
    else (if IsSpace(s[0]) then "" else [s[0]]) + NonSpace(s[1..])
  }

  /** The concatenation of the strings of `ws`. */
  function Concat(ws: seq<string>): string {
    if ws == [] then "" else ws[0] + Concat(ws[1..])
  }

  /** A character-level reference for `' '.join(s.split())`: leading
      whitespace is skipped, and a whitespace run is emitted as one space
      only when another non-whitespace character follows it. */
  function TrimStart(s: string): string {
    if s != [] && IsSpace(s[0]) then TrimStart(s[1..]) else s
  }

  function Squeeze(s: string, pending: bool): string {
    if s == [] then ""
    else if IsSpace(s[0]) then Squeeze(s[1..], true)
    else (if pending then " " else "") + [s[0]] + Squeeze(s[1..], false)
  }

  function Normalize(s: string): string {
    Squeeze(TrimStart(s), false)
  }

  // ---------------------------------------------------------------------
  // Splitting on whitespace

  /** The prefix WordLength measures holds no whitespace. */
  lemma {:induction false} WordLengthRun(s: string)
    ensures NoSpace(s[..WordLength(s)])
  {
    if s != [] && !IsSpace(s[0]) {
      WordLengthRun(s[1..]);
      var n := WordLength(s);
      forall i | 0 <= i < n ensures !IsSpace(s[..n][i]) {
        if i > 0 { assert s[..n][i] == s[1..][..n - 1][i - 1]; }
      }
    }
  }

  /** Every piece `split()` yields is a word. */
  lemma {:induction false} WordsAreWords(s: string)
    ensures AllWords(Words(s))
    decreases |s|
  {
    if s == [] {
    } else if IsSpace(s[0]) {
      WordsAreWords(s[1..]);
    } else {
      var n := WordLength(s);
      WordLengthRun(s);
      WordsAreWords(s[n..]);
      var ws := Words(s);
      assert ws == [s[..n]] + Words(s[n..]);
      forall k | 0 <= k < |ws| ensures IsWord(ws[k]) {
        if k > 0 { assert ws[k] == Words(s[n..])[k - 1]; }
      }
    }
  }

  /** Splitting drops exactly the whitespace: the words, glued together,
      are the non-whitespace characters of the text in their order. */
  lemma {:induction false} WordsConcat(s: string)
    ensures Concat(Words(s)) == NonSpace(s)
    decreases |s|
  {
    if s == [] {
    } else if IsSpace(s[0]) {
      WordsConcat(s[1..]);
    } else {
      var n := WordLength(s);
      WordLengthRun(s);
      WordsConcat(s[n..]);
      NonSpaceOfWord(s[..n], s[n..]);
      assert s[..n] + s[n..] == s;
      assert Concat(Words(s)) == s[..n] + Concat(Words(s[n..]));
    }
  }

  lemma {:induction false} NonSpaceOfWord(w: string, rest: string)
    requires NoSpace(w)
    ensures NonSpace(w + rest) == w + NonSpace(rest)
  {
    if w != [] {
      assert (w + rest)[1..] == w[1..] + rest;
      NonSpaceOfWord(w[1..], rest);
      assert w == [w[0]] + w[1..];
    } else {
      assert w + rest == rest;
    }
  }

  /** A text has no words exactly when it is empty or all whitespace. */
  lemma {:induction false} WordsEmptyIffBlank(s: string)
    ensures Words(s) == [] <==> AllSpace(s)
    decreases |s|
  {
    if s != [] {
      WordsEmptyIffBlank(s[1..]);
      if IsSpace(s[0]) {
        assert AllSpace(s) <==> AllSpace(s[1..]) by {
          if AllSpace(s[1..]) {
            forall i | 0 <= i < |s| ensures IsSpace(s[i]) {
              if i > 0 { assert s[i] == s[1..][i - 1]; }
            }
          }
        }
      }
    }
  }

  lemma {:induction false} WordLengthOfWord(w: string, rest: string)
    requires NoSpace(w)
    requires rest == [] || IsSpace(rest[0])
    ensures WordLength(w + rest) == |w|
  {
    if w != [] {
      assert (w + rest)[1..] == w[1..] + rest;
      WordLengthOfWord(w[1..], rest);
    } else {
      assert w + rest == rest;
    }
  }

  /** The words of a word followed by a whitespace-led rest. */
  lemma WordsOfWordThen(w: string, rest: string)
    requires IsWord(w)
    requires rest == [] || IsSpace(rest[0])
    ensures Words(w + rest) == [w] + Words(rest)
  {
    WordLengthOfWord(w, rest);
    assert (w + rest)[..|w|] == w;
    assert (w + rest)[|w|..] == rest;
  }

  lemma JoinCons(w: string, rest: seq<string>)
    ensures Join([w] + rest) == w + Gap(rest)
  {
  }

  /** Round trip: splitting a single-space join of words recovers the words. */
  lemma {:induction false} WordsOfJoin(ws: seq<string>)
    requires AllWords(ws)
    ensures Words(Join(ws)) == ws
  {
    if ws == [] {
    } else if |ws| == 1 {
      WordsOfWordThen(ws[0], "");
      assert ws[0] + "" == ws[0];
    } else {
      var rest := ws[1..];
      assert AllWords(rest) by {
        forall k | 0 <= k < |rest| ensures IsWord(rest[k]) { assert rest[k] == ws[k + 1]; }
      }
      WordsOfJoin(rest);
      var tail := " " + Join(rest);
      assert Join(ws) == ws[0] + tail by {
        Associate(ws[0], " ", Join(rest));
      }
      WordsOfWordThen(ws[0], tail);
      assert Words(tail) == Words(Join(rest)) by {
        assert tail[1..] == Join(rest);
      }
      assert [ws[0]] + rest == ws;
    }
  }

  // ---------------------------------------------------------------------
  // The join of the words is the whitespace-normalised text

  /** The reference normaliser against a text's words. */
  predicate SqueezeMatches(s: string, pending: bool) {
    Squeeze(s, pending) ==
      if Words(s) == [] then ""
      else (if pending || IsSpace(s[0]) then " " else "") + Join(Words(s))
  }

  lemma {:induction false} SqueezeIsJoin(s: string, pending: bool)
    ensures SqueezeMatches(s, pending)
    decreases |s|
  {
    if s == [] {
    } else if IsSpace(s[0]) {
      SqueezeIsJoin(s[1..], true);
    } else {
      SqueezeIsJoin(s[1..], false);
      SqueezeAtWord(s, pending);
    }
  }

  /** What follows the first word in a join: nothing, or a space and the rest. */
  function Gap(rest: seq<string>): string {
    if rest == [] then "" else " " + Join(rest)
  }

  /** Squeezing after the first character of a word yields the rest of
      the word and then the remaining words. */
  predicate WordStep(s: string)
    requires s != [] && !IsSpace(s[0])
  {
    [s[0]] + Squeeze(s[1..], false) == s[..WordLength(s)] + Gap(Words(s[WordLength(s)..]))
  }

  /** The step of SqueezeIsJoin at a non-whitespace character. */
  lemma SqueezeAtWord(s: string, pending: bool)
    requires s != [] && !IsSpace(s[0])
    requires SqueezeMatches(s[1..], false)
    ensures SqueezeMatches(s, pending)
  {
    var n := WordLength(s);
    var lead := if pending then " " else "";
    assert Words(s) == [s[..n]] + Words(s[n..]);
    JoinCons(s[..n], Words(s[n..]));
    if n == 1 {
      SqueezeAfterShortWord(s);
    } else {
      SqueezeInsideWord(s);
    }
    assert Squeeze(s, pending) == lead + [s[0]] + Squeeze(s[1..], false);
    Associate(lead, [s[0]], Squeeze(s[1..], false));
  }

  lemma SqueezeAfterShortWord(s: string)
    requires s != [] && !IsSpace(s[0]) && WordLength(s) == 1
    requires SqueezeMatches(s[1..], false)
    ensures WordStep(s)
  {
  }

  lemma SqueezeInsideWord(s: string)
    requires s != [] && !IsSpace(s[0]) && WordLength(s) > 1
    requires SqueezeMatches(s[1..], false)
    ensures WordStep(s)
  {
    var n := WordLength(s);
    var rest := Words(s[n..]);
    var inner := s[1..n];
    assert Squeeze(s[1..], false) == inner + Gap(rest) by {
      WordsInsideWord(s);
      JoinCons(inner, rest);
    }
    assert [s[0]] + inner == s[..n];
    Associate([s[0]], inner, Gap(rest));
  }

  lemma Associate(a: string, b: string, c: string)
    ensures a + (b + c) == (a + b) + c
  {
  }

  /** Dropping the first character of a word of length two or more. */
  lemma WordsInsideWord(s: string)
    requires s != [] && !IsSpace(s[0]) && WordLength(s) > 1
    ensures Words(s[1..]) == [s[1..WordLength(s)]] + Words(s[WordLength(s)..])
    ensures !IsSpace(s[1..][0])
  {
    var n := WordLength(s);
    var t := s[1..];
    WordLengthRun(s);
    assert s[..n][1] == s[1];
    assert !IsSpace(t[0]);
    assert WordLength(t) == n - 1;
    assert t[..n - 1] == s[1..n];
    assert t[n - 1..] == s[n..];
  }

  lemma {:induction false} WordsTrimStart(s: string)
    ensures Words(TrimStart(s)) == Words(s)
    ensures TrimStart(s) == [] || !IsSpace(TrimStart(s)[0])
    decreases |s|
  {
    if s != [] && IsSpace(s[0]) {
      WordsTrimStart(s[1..]);
    }
  }

  /** `' '.join(s.split())` strips the text and collapses each inner
      whitespace run to a single space. */
  lemma JoinWordsIsNormalize(s: string)
    ensures Join(Words(s)) == Normalize(s)
  {
    WordsTrimStart(s);
    SqueezeIsJoin(TrimStart(s), false);
  }

  // ---------------------------------------------------------------------
  // Correcting the words

  /** Python truthiness of the corrector's answer: `None` and `""` are falsy. */
  predicate Truthy(c: Option<string>) {
    c.Some? && c.value != ""
  }

  /** The corrections of `ws` that are kept, in order. */
  function Kept(ws: seq<string>, correct: string -> Option<string>): (r: seq<string>)
    ensures |r| <= |ws|
    ensures forall k :: 0 <= k < |r| ==> r[k] != ""
  {
    if ws == [] then []
    else (if Truthy(correct(ws[0])) then [correct(ws[0]).value] else []) + Kept(ws[1..], correct)
  }

  /** Keeping distributes over concatenation, so the kept list is the
      in-order concatenation of what each word contributes on its own. */
  lemma {:induction false} KeptAppend(a: seq<string>, b: seq<string>, correct: string -> Option<string>)
    ensures Kept(a + b, correct) == Kept(a, correct) + Kept(b, correct)
  {
    if a == [] {
      assert a + b == b;
    } else {
      assert (a + b)[1..] == a[1..] + b;
      KeptAppend(a[1..], b, correct);
    }
  }

  /** What one word contributes: its correction exactly when it is truthy. */
  lemma KeptSingle(w: string, correct: string -> Option<string>)
    ensures Kept([w], correct) == if Truthy(correct(w)) then [correct(w).value] else []
  {
  }

  /** A corrector that returns every word unchanged keeps every word. */
  lemma {:induction false} KeptIdentity(ws: seq<string>, correct: string -> Option<string>)
    requires forall k :: 0 <= k < |ws| ==> ws[k] != "" && correct(ws[k]) == Some(ws[k])
    ensures Kept(ws, correct) == ws
  {
    if ws != [] {
      KeptIdentity(ws[1..], correct);
      assert [ws[0]] + ws[1..] == ws;
    }
  }

  /** The result of `correct_spelling(text)`. */
  function CorrectedText(text: string, correct: string -> Option<string>): (r: string)
    ensures Words(text) == [] ==> r == ""
    ensures |Words(text)| == 1 && Truthy(correct(Words(text)[0])) ==> r == correct(Words(text)[0]).value
  {
    KeptSingle(if Words(text) == [] then "" else Words(text)[0], correct);
    Join(Kept(Words(text), correct))
  }

  /** `correct_spelling` (scripts/spelling.py:3-11), loop and all. */
  method CorrectSpelling(text: string, correct: string -> Option<string>) returns (r: string)
    ensures r == CorrectedText(text, correct)
  {
    var words := Words(text);
    var corrected: seq<string> := [];
    for i := 0 to |words|
      invariant corrected == Kept(words[..i], correct)
    {
      var word := words[i];
      var correctedWord := correct(word);
      KeptAppend(words[..i], [word], correct);
      KeptSingle(word, correct);
      assert words[..i + 1] == words[..i] + [word];
      if correctedWord.Some? && correctedWord.value != "" {
        corrected := corrected + [correctedWord.value];
      }
    }
    assert words[..|words|] == words;
    r := Join(corrected);
  }

  /** Empty or whitespace-only input yields the empty string. */
  lemma CorrectedBlank(text: string, correct: string -> Option<string>)
    requires AllSpace(text)
    ensures CorrectedText(text, correct) == ""
  {
    WordsEmptyIffBlank(text);
  }

  /** If no kept correction contains whitespace, splitting the output
      recovers exactly the kept corrections; so the output has at most as
      many words as the input. */
  lemma CorrectedSplitsBack(text: string, correct: string -> Option<string>)
    requires forall k :: 0 <= k < |Kept(Words(text), correct)| ==> NoSpace(Kept(Words(text), correct)[k])
    ensures Words(CorrectedText(text, correct)) == Kept(Words(text), correct)
    ensures |Words(CorrectedText(text, correct))| <= |Words(text)|
  {
    WordsOfJoin(Kept(Words(text), correct));
  }

  /** With a corrector that changes no word, the output is the input
      stripped, with each inner whitespace run collapsed to one space. */
  lemma CorrectedIdentity(text: string, correct: string -> Option<string>)
    requires forall w :: IsWord(w) ==> correct(w) == Some(w)
    ensures CorrectedText(text, correct) == Normalize(text)
  {
    WordsAreWords(text);
    KeptIdentity(Words(text), correct);
    JoinWordsIsNormalize(text);
  }
}
