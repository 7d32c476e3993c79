/**
 * The Python string operations the pipeline applies to scientific names and
 * column labels: `str.strip()`, `str.split()` / `' '.join(...)`, ASCII
 * `str.lower()`, `str.startswith(...)`, and the two regular expressions of the
 * name sanitation step (`[\\/]` and `(?i)\b(?:sp\.|spp\.)`).
 */
module Text {

  /** Python's `str.isspace()`: the characters `strip()` and `split()` treat as blanks. */
  predicate IsSpace(c: char)
  {
    || '\t' <= c <= '\r'                  // tab, line feed, vertical tab, form feed, return
    || '\U{1C}' <= c <= '\U{1F}'          // file, group, record and unit separators
    || c == ' ' || c == '\U{85}' || c == '\U{A0}' || c == '\U{1680}'
    || '\U{2000}' <= c <= '\U{200A}'      // en quad .. hair space
    || c == '\U{2028}' || c == '\U{2029}' || c == '\U{202F}' || c == '\U{205F}' || c == '\U{3000}'
  }

  ghost predicate NoSpace(s: string)
  {
    forall i :: 0 <= i < |s| ==> !IsSpace(s[i])
  }

  // ---------------------------------------------------------------------------
  // strip()
  // ---------------------------------------------------------------------------

  function TrimStart(s: string): (r: string)
    ensures |r| <= |s| && r == s[|s| - |r|..]
    ensures r == [] || !IsSpace(r[0])
    ensures forall i :: 0 <= i < |s| - |r| ==> IsSpace(s[i])
  {
    if s != [] && IsSpace(s[0]) then TrimStart(s[1..]) else s
  }

  function TrimEnd(s: string): (r: string)
    ensures |r| <= |s| && r == s[..|r|]
    ensures r == [] || !IsSpace(r[|r| - 1])
    ensures forall i :: |r| <= i < |s| ==> IsSpace(s[i])
  {
    if s != [] && IsSpace(s[|s| - 1]) then TrimEnd(s[..|s| - 1]) else s
  }

  /** `str.strip()`: drop leading and trailing blanks. */
  function Strip(s: string): string
  {
    TrimEnd(TrimStart(s))
  }

  /** `Strip(s)` is the contiguous middle `s[i..j]` of `s`: only blanks lie outside it, and it neither starts nor ends with one. */
  lemma StripIsTrimmedMiddle(s: string) returns (i: nat, j: nat)
    ensures i <= j <= |s| && Strip(s) == s[i..j]
    ensures forall k :: 0 <= k < i ==> IsSpace(s[k])
    ensures forall k :: j <= k < |s| ==> IsSpace(s[k])
    ensures Strip(s) == [] || (!IsSpace(Strip(s)[0]) && !IsSpace(Strip(s)[|Strip(s)| - 1]))
  {
    i := |s| - |TrimStart(s)|;
    StripSlice(s);
    j := i + |Strip(s)|;
    StripEnds(s);
  }

  /** `Strip(s)` is the slice of `s` after the leading blanks, followed only by blanks. */
  lemma StripSlice(s: string)
    ensures var i := |s| - |TrimStart(s)|;
      && i + |Strip(s)| <= |s| && Strip(s) == s[i..i + |Strip(s)|]
      && forall k :: i + |Strip(s)| <= k < |s| ==> IsSpace(s[k])
  {
    var t := TrimStart(s);
    assert t == s[|s| - |t|..];
    TrimEndOfSuffix(s, |s| - |t|);
  }

  /** A non-empty stripped string neither starts nor ends with a blank. */
  lemma StripEnds(s: string)
    ensures Strip(s) == [] || (!IsSpace(Strip(s)[0]) && !IsSpace(Strip(s)[|Strip(s)| - 1]))
  {
    var t := TrimStart(s);
    TrimEndKeepsHead(t);
  }

  /** Trimming the end of the suffix `s[i..]` leaves a slice `s[i..j]` followed only by blanks. */
  lemma TrimEndOfSuffix(s: string, i: nat)
    requires i <= |s|
    ensures var r := TrimEnd(s[i..]);
      i + |r| <= |s| && r == s[i..i + |r|] && forall k :: i + |r| <= k < |s| ==> IsSpace(s[k])
  {
    var t := s[i..];
    var r := TrimEnd(t);
    assert r == t[..|r|];
    forall k | i + |r| <= k < |s|
      ensures IsSpace(s[k])
    {
      assert s[k] == t[k - i];
    }
  }

  /** Trimming the end keeps the first character when anything is left. */
  lemma TrimEndKeepsHead(t: string)
    ensures TrimEnd(t) == [] || TrimEnd(t)[0] == t[0]
  {
    var r := TrimEnd(t);
    if r != [] {
      assert r == t[..|r|];
    }
  }

  lemma {:induction false} TrimStartNoLeading(s: string)
    requires s == [] || !IsSpace(s[0])
    ensures TrimStart(s) == s
  {
  }

  /** Stripping twice is stripping once: the result has no blanks at either end. */
  lemma StripIdempotent(s: string)
    ensures Strip(Strip(s)) == Strip(s)
  {
    var r := Strip(s);
    if r != [] {
      var i, j := StripIsTrimmedMiddle(s);
      assert TrimStart(r) == r;
      assert TrimEnd(r) == r;
    }
  }

  // ---------------------------------------------------------------------------
  // split() and ' '.join(...)
  // ---------------------------------------------------------------------------

  /** Length of the leading run of non-blank characters. */
  function WordLength(s: string): (k: nat)
    ensures k <= |s|
    ensures forall i :: 0 <= i < k ==> !IsSpace(s[i])
    ensures k == |s| || IsSpace(s[k])
  {
    if s == [] || IsSpace(s[0]) then 0 else 1 + WordLength(s[1..])
  }

  /** `str.split()` with no separator: the maximal runs of non-blank characters. */
  function Tokens(s: string): (ts: seq<string>)
    ensures forall k :: 0 <= k < |ts| ==> ts[k] != [] && NoSpace(ts[k])
    decreases |s|
  {
    var t := TrimStart(s);
    if t == [] then []
    else
      var k := WordLength(t);
      LeadingWord(t);
      var rest := Tokens(t[k..]);
      WordsCons(t[..k], rest);
      [t[..k]] + rest
  }

  lemma WordsCons(w: string, rest: seq<string>)
    requires w != [] && NoSpace(w)
    requires forall k :: 0 <= k < |rest| ==> rest[k] != [] && NoSpace(rest[k])
    ensures forall k :: 0 <= k < |[w] + rest| ==> ([w] + rest)[k] != [] && NoSpace(([w] + rest)[k])
  {
    var ts := [w] + rest;
    forall k | 0 <= k < |ts| ensures ts[k] != [] && NoSpace(ts[k]) {
      if k > 0 {
        assert ts[k] == rest[k - 1];
      }
    }
  }

  /** A string starting with a non-blank starts with a non-empty blank-free word. */
  lemma LeadingWord(t: string)
    requires t != [] && !IsSpace(t[0])
    ensures 0 < WordLength(t) && t[..WordLength(t)] != [] && NoSpace(t[..WordLength(t)])
  {
    var w := t[..WordLength(t)];
    forall i | 0 <= i < |w| ensures !IsSpace(w[i]) {
      assert w[i] == t[i];
    }
  }

  /** `' '.join(ts)`. */
  function JoinWithSpace(ts: seq<string>): string
  {
    if ts == [] then []
    else if |ts| == 1 then ts[0]
    else ts[0] + " " + JoinWithSpace(ts[1..])
  }

  /** Splitting a space-joined list of non-empty blank-free words gives the words back. */
  lemma {:induction false} TokensOfJoin(ts: seq<string>)
    requires forall k :: 0 <= k < |ts| ==> ts[k] != [] && NoSpace(ts[k])
    ensures Tokens(JoinWithSpace(ts)) == ts
  {
    if |ts| <= 1 {
      TokensOfShortJoin(ts);
    } else {
      WordsOfTail(ts);
      TokensOfJoin(ts[1..]);
      TokensOfJoinCons(ts);
    }
  }

  lemma TokensOfShortJoin(ts: seq<string>)
    requires |ts| <= 1
    requires ts != [] ==> ts[0] != [] && NoSpace(ts[0])
    ensures Tokens(JoinWithSpace(ts)) == ts
  {
    if ts == [] {
      assert TrimStart([]) == [];
    } else {
      TokensOfOneWord(ts[0]);
      assert [ts[0]] == ts;
    }
  }

  lemma TokensOfJoinCons(ts: seq<string>)
    requires |ts| > 1 && ts[0] != [] && NoSpace(ts[0])
    requires Tokens(JoinWithSpace(ts[1..])) == ts[1..]
    ensures Tokens(JoinWithSpace(ts)) == ts
  {
    TokensOfJoinStep(ts[0], ts[1..]);
    assert [ts[0]] + ts[1..] == ts;
  }

  lemma WordsOfTail(ts: seq<string>)
    requires ts != []
    requires forall k :: 0 <= k < |ts| ==> ts[k] != [] && NoSpace(ts[k])
    ensures forall k :: 0 <= k < |ts[1..]| ==> ts[1..][k] != [] && NoSpace(ts[1..][k])
  {
    var tail := ts[1..];
    forall k | 0 <= k < |tail| ensures tail[k] != [] && NoSpace(tail[k]) {
      assert tail[k] == ts[k + 1];
    }
  }

  lemma TokensOfOneWord(w: string)
    requires w != [] && NoSpace(w)
    ensures Tokens(JoinWithSpace([w])) == [w]
  {
    assert JoinWithSpace([w]) == w;
    TokensOfWord(w, []);
    assert w + [] == w;
    assert Tokens([]) == [] by { assert TrimStart([]) == []; }
  }

  lemma TokensOfJoinStep(w: string, tail: seq<string>)
    requires w != [] && NoSpace(w) && tail != []
    requires Tokens(JoinWithSpace(tail)) == tail
    ensures Tokens(JoinWithSpace([w] + tail)) == [w] + tail
  {
    var rest := JoinWithSpace(tail);
    assert ([w] + tail)[1..] == tail;
    assert JoinWithSpace([w] + tail) == w + ([' '] + rest);
    TokensOfWord(w, [' '] + rest);
    TokensSkipBlank(' ', rest);
  }

  /** A leading blank does not change the split. */
  lemma TokensSkipBlank(c: char, rest: string)
    requires IsSpace(c)
    ensures Tokens([c] + rest) == Tokens(rest)
  {
    assert ([c] + rest)[1..] == rest;
    assert TrimStart([c] + rest) == TrimStart(rest);
  }

  /** A word followed by a blank (or by nothing) is the first token. */
  lemma TokensOfWord(w: string, tail: string)
    requires w != [] && NoSpace(w)
    requires tail == [] || IsSpace(tail[0])
    ensures Tokens(w + tail) == [w] + Tokens(tail)
  {
    var s := w + tail;
    assert TrimStart(s) == s;
    WordLengthOfWord(w, tail);
    assert s[..|w|] == w;
    assert s[|w|..] == tail;
  }

  lemma {:induction false} WordLengthOfWord(w: string, tail: string)
    requires NoSpace(w)
    requires tail == [] || IsSpace(tail[0])
    ensures WordLength(w + tail) == |w|
  {
    if w != [] {
      assert (w + tail)[1..] == w[1..] + tail;
      WordLengthOfWord(w[1..], tail);
    }
  }

  lemma JoinStartsWithWord(ts: seq<string>)
    requires ts != [] && ts[0] != [] && NoSpace(ts[0])
    ensures JoinWithSpace(ts) != [] && JoinWithSpace(ts)[0] == ts[0][0]
  {
  }

  /** The iNaturalist name normalisation `' '.join(x.split()[:2])`. */
  function FirstTwoWords(s: string): string
  {
    var ts := Tokens(s);
    JoinWithSpace(if |ts| <= 2 then ts else ts[..2])
  }

  /** The normalised name consists of the first (at most) two words of the original. */
  lemma FirstTwoWordsSpec(s: string)
    ensures var ts := Tokens(s);
      Tokens(FirstTwoWords(s)) == (if |ts| <= 2 then ts else ts[..2])
    ensures |Tokens(FirstTwoWords(s))| <= 2
  {
    var ts := Tokens(s);
    TokensOfJoin(if |ts| <= 2 then ts else ts[..2]);
  }

  /** Normalising an already normalised name changes nothing. */
  lemma FirstTwoWordsIdempotent(s: string)
    ensures FirstTwoWords(FirstTwoWords(s)) == FirstTwoWords(s)
  {
    FirstTwoWordsSpec(s);
  }

  // ---------------------------------------------------------------------------
  // lower(), startswith()
  // ---------------------------------------------------------------------------

  function LowerChar(c: char): char
  {
    if 'A' <= c <= 'Z' then (c as int + 32) as char else c
  }

  /** `str.lower()` on ASCII letters. */
  function Lower(s: string): (r: string)
    ensures |r| == |s|
    ensures forall i :: 0 <= i < |s| ==> r[i] == LowerChar(s[i])
  {
    if s == [] then [] else [LowerChar(s[0])] + Lower(s[1..])
  }

  /** A string without upper-case ASCII letters is its own lower case. */
  lemma LowerOfLowercase(s: string)
    requires forall i :: 0 <= i < |s| ==> !('A' <= s[i] <= 'Z')
    ensures Lower(s) == s
  {
    assert forall i :: 0 <= i < |s| ==> Lower(s)[i] == s[i];
  }

  predicate StartsWith(s: string, prefix: string)
  {
    |prefix| <= |s| && s[..|prefix|] == prefix
  }

  /** `c.lower().startswith(prefix.lower())`: the case-insensitive prefix test. */
  predicate StartsWithIgnoringCase(s: string, prefix: string)
  {
    StartsWith(Lower(s), Lower(prefix))
  }

  /** The prefix test holds once the leading characters agree after lowering, one by one. */
  lemma StartsWithIgnoringCaseByChars(s: string, prefix: string)
    requires |prefix| <= |s|
    requires forall i :: 0 <= i < |prefix| ==> LowerChar(s[i]) == LowerChar(prefix[i])
    ensures StartsWithIgnoringCase(s, prefix)
  {
    assert Lower(s)[..|prefix|] == Lower(prefix);
  }

  /** The prefix test fails when one leading character differs after lowering. */
  lemma NotStartsWithIgnoringCaseAt(s: string, prefix: string, i: nat)
    requires i < |prefix| && i < |s|
    requires LowerChar(s[i]) != LowerChar(prefix[i])
    ensures !StartsWithIgnoringCase(s, prefix)
  {
    if |prefix| <= |s| {
      assert Lower(s)[..|prefix|][i] != Lower(prefix)[i];
    }
  }

  // ---------------------------------------------------------------------------
  // The two sanitation patterns of the species stage
  // ---------------------------------------------------------------------------

  /** `str.contains(r'[\\/]')`. */
  predicate HasSlash(s: string)
  {
    exists i :: 0 <= i < |s| && (s[i] == '/' || s[i] == '\\')
  }

  /** `\w` on ASCII: letters, digits and underscore. */
  predicate IsWordChar(c: char)
  {
    'a' <= c <= 'z' || 'A' <= c <= 'Z' || '0' <= c <= '9' || c == '_'
  }

  /** `\b` in front of position `i`, which holds a word character. */
  predicate BoundaryBefore(s: string, i: nat)
    requires i <= |s|
  {
    i == 0 || !IsWordChar(s[i - 1])
  }

  /** `pattern` (lower case) occurs at `i` in `s`, ignoring the case of ASCII letters. */
  predicate MatchesAt(s: string, i: nat, pattern: string)
  {
    i + |pattern| <= |s| && Lower(s[i..i + |pattern|]) == pattern
  }

  /** `str.contains(r'(?i)\b(?:sp\.|spp\.)')`: an abbreviated-rank marker starts at a word boundary. */
  predicate HasRankMarker(s: string)
  {
    exists i :: 0 <= i < |s| && BoundaryBefore(s, i)
      && (MatchesAt(s, i, "sp.") || MatchesAt(s, i, "spp."))
  }

  /** The boundary is only required before the marker: "Larus sp." and "sp.x" match, "Asp." does not. */
  lemma RankMarkerExamples()
    ensures HasRankMarker("Larus sp.")
    ensures HasRankMarker("sp.x")
    ensures HasRankMarker("Anas SPP.")
    ensures !HasRankMarker("Asp.")
  {
    assert BoundaryBefore("Larus sp.", 6) && MatchesAt("Larus sp.", 6, "sp.");
    assert MatchesAt("sp.x", 0, "sp.");
    assert BoundaryBefore("Anas SPP.", 5) && MatchesAt("Anas SPP.", 5, "spp.");
    forall i | 0 <= i < |"Asp."| && BoundaryBefore("Asp.", i)
      ensures !MatchesAt("Asp.", i, "sp.") && !MatchesAt("Asp.", i, "spp.")
    {
      assert i == 0;
    }
  }
}
