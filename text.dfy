/**
 * Tokenization of query and question text: lower-casing, the Thai-script
 * test that picks the segmenter, and whitespace splitting as Go's
 * strings.Fields does it.
 */
module Text {

  /** The external Thai word segmenter (go-thaiwordcut), supplied by the caller. */
  type Segmenter = string -> seq<string>

  /** strings.ToLower on one rune; only the ASCII letters are mapped here. */
  function LowerRune(c: char): char
  {
    if 'A' <= c <= 'Z' then (c as int + 32) as char else c
  }

  /** strings.ToLower. */
  function Lower(s: string): (r: string)
    ensures |r| == |s|
    ensures forall i :: 0 <= i < |s| ==> r[i] == LowerRune(s[i])
  {
    if s == [] then [] else [LowerRune(s[0])] + Lower(s[1..])
  }

  /** unicode.In(r, unicode.Thai): the two ranges of Go's Thai script table. */
  predicate IsThai(c: char)
  {
    (0x0E01 <= c as int <= 0x0E3A) || (0x0E40 <= c as int <= 0x0E5B)
  }

  /** containsThai: some rune of the whole string is in the Thai table. */
  function ContainsThai(s: string): (b: bool)
    ensures b <==> exists i :: 0 <= i < |s| && IsThai(s[i])
  {
    if s == [] then false
    else if IsThai(s[0]) then true
    else
      assert forall i :: 1 <= i < |s| ==> s[i] == s[1..][i - 1];
      ContainsThai(s[1..])
  }

  /** unicode.IsSpace: the Latin-1 spaces, then the White_Space property. */
  predicate IsSpace(c: char)
  {
    var n := c as int;
    if n <= 0xFF then
      n == 0x09 || n == 0x0A || n == 0x0B || n == 0x0C || n == 0x0D || n == 0x20 || n == 0x85 || n == 0xA0
    else
      n == 0x1680 || (0x2000 <= n <= 0x200A) || n == 0x2028 || n == 0x2029
      || n == 0x202F || n == 0x205F || n == 0x3000
  }

  /** A field: a non-empty run of non-space runes. */
  predicate IsWord(w: string)
  {
    w != [] && forall j :: 0 <= j < |w| ==> !IsSpace(w[j])
  }

  /** The length of the run of non-space runes that starts s. */
  function WordLength(s: string): (n: nat)
    ensures n <= |s|
    ensures forall j :: 0 <= j < n ==> !IsSpace(s[j])
    ensures n < |s| ==> IsSpace(s[n])
  {
    if s == [] || IsSpace(s[0]) then 0 else 1 + WordLength(s[1..])
  }

  /** strings.Fields: the maximal runs of non-space runes, in order. */
  function Fields(s: string): (r: seq<string>)
    ensures forall i :: 0 <= i < |r| ==> IsWord(r[i])
    decreases |s|
  {
    if s == [] then []
    else if IsSpace(s[0]) then Fields(s[1..])
    else
      var n := WordLength(s);
      [s[..n]] + Fields(s[n..])
  }

  /** The runes of s that are not spaces, in order. */
  function NonSpace(s: string): string
  {
    if s == [] then [] else (if IsSpace(s[0]) then [] else [s[0]]) + NonSpace(s[1..])
  }

  /** The fields laid end to end. */
  function Concat(ws: seq<string>): string
  {
    if ws == [] then [] else ws[0] + Concat(ws[1..])
  }

  lemma {:induction false} NonSpaceOfWord(s: string, n: nat)
    requires n <= |s|
    requires forall j :: 0 <= j < n ==> !IsSpace(s[j])
    ensures NonSpace(s) == s[..n] + NonSpace(s[n..])
    decreases n
  {
    if n > 0 {
      NonSpaceOfWord(s[1..], n - 1);
      assert s[1..][..n - 1] == s[1..n];
      assert s[1..][n - 1..] == s[n..];
      assert s[..n] == [s[0]] + s[1..n];
    }
  }

  /** Splitting loses exactly the whitespace: the fields concatenated are the non-space runes. */
  lemma {:induction false} FieldsKeepNonSpace(s: string)
    ensures Concat(Fields(s)) == NonSpace(s)
    decreases |s|
  {
    if s == [] {
    } else if IsSpace(s[0]) {
      FieldsKeepNonSpace(s[1..]);
    } else {
      var n := WordLength(s);
      FieldsKeepNonSpace(s[n..]);
      NonSpaceOfWord(s, n);
      assert Fields(s) == [s[..n]] + Fields(s[n..]);
      assert ([s[..n]] + Fields(s[n..]))[1..] == Fields(s[n..]);
    }
  }

  /** Text made only of whitespace (the empty text included) has no fields. */
  lemma {:induction false} FieldsOfBlank(s: string)
    requires forall j :: 0 <= j < |s| ==> IsSpace(s[j])
    ensures Fields(s) == []
    decreases |s|
  {
    if s != [] {
      FieldsOfBlank(s[1..]);
    }
  }

  /** A run of whitespace (possibly empty). */
  predicate IsBlank(g: string)
  {
    forall j :: 0 <= j < |g| ==> IsSpace(g[j])
  }

  /** The text laid out as gaps[0] words[0] gaps[1] ... words[|words| - 1] gaps[|words|]. */
  function Interleave(gaps: seq<string>, words: seq<string>): string
    requires |gaps| == |words| + 1
    decreases |words|
  {
    if words == [] then gaps[0] else gaps[0] + words[0] + Interleave(gaps[1..], words[1..])
  }

  /**
   * The whitespace around the fields of s: the leading run, the runs
   * between fields (never empty) and the trailing run.
   */
  function Gaps(s: string): (g: seq<string>)
    ensures |g| == |Fields(s)| + 1
    ensures forall k :: 0 <= k < |g| ==> IsBlank(g[k])
    ensures forall k :: 0 < k < |g| - 1 ==> g[k] != []
    ensures s != [] && IsSpace(s[0]) ==> g[0] != []
    decreases |s|
  {
    if s == [] then [[]]
    else if IsSpace(s[0]) then
      var rest := Gaps(s[1..]);
      [[s[0]] + rest[0]] + rest[1..]
    else
      [[]] + Gaps(s[WordLength(s)..])
  }

  /** Text in front of the first gap joins that gap. */
  lemma InterleavePrefix(x: string, gaps: seq<string>, words: seq<string>)
    requires |gaps| == |words| + 1
    ensures Interleave([x + gaps[0]] + gaps[1..], words) == x + Interleave(gaps, words)
  {
    assert ([x + gaps[0]] + gaps[1..])[1..] == gaps[1..];
  }

  lemma InterleaveCons(gap: string, word: string, gaps: seq<string>, words: seq<string>)
    requires |gaps| == |words| + 1
    ensures Interleave([gap] + gaps, [word] + words) == gap + word + Interleave(gaps, words)
  {
    assert ([gap] + gaps)[1..] == gaps && ([word] + words)[1..] == words;
  }

  /** strings.Fields splits s into its fields and the whitespace between them, losing nothing. */
  lemma {:induction false} FieldsSplit(s: string)
    ensures Interleave(Gaps(s), Fields(s)) == s
    decreases |s|
  {
    if s == [] {
    } else if IsSpace(s[0]) {
      FieldsSplit(s[1..]);
      SplitAfterSpace(s);
    } else {
      FieldsSplit(s[WordLength(s)..]);
      SplitAfterWord(s);
    }
  }

  /** A leading space joins the first gap. */
  lemma SplitAfterSpace(s: string)
    requires s != [] && IsSpace(s[0])
    requires Interleave(Gaps(s[1..]), Fields(s[1..])) == s[1..]
    ensures Interleave(Gaps(s), Fields(s)) == s
  {
    InterleavePrefix([s[0]], Gaps(s[1..]), Fields(s[1..]));
    assert [s[0]] + s[1..] == s;
  }

  /** A leading word becomes the first field, after an empty gap. */
  lemma SplitAfterWord(s: string)
    requires s != [] && !IsSpace(s[0])
    requires Interleave(Gaps(s[WordLength(s)..]), Fields(s[WordLength(s)..])) == s[WordLength(s)..]
    ensures Interleave(Gaps(s), Fields(s)) == s
  {
    var n := WordLength(s);
    InterleaveWord(s, n, Gaps(s[n..]), Fields(s[n..]));
  }

  lemma InterleaveWord(s: string, n: nat, gaps: seq<string>, words: seq<string>)
    requires n <= |s| && |gaps| == |words| + 1
    requires Interleave(gaps, words) == s[n..]
    ensures Interleave([[]] + gaps, [s[..n]] + words) == s
  {
    InterleaveCons([], s[..n], gaps, words);
    assert s[..n] + s[n..] == s;
  }

  /** A run of n non-space runes ended by a space or by the end of s is the first field's length. */
  lemma {:induction false} WordLengthOf(s: string, n: nat)
    requires n <= |s|
    requires forall j :: 0 <= j < n ==> !IsSpace(s[j])
    requires n == |s| || IsSpace(s[n])
    ensures WordLength(s) == n
    decreases n
  {
    if n > 0 {
      WordLengthOf(s[1..], n - 1);
    }
  }

  /**
   * Fields is the only way to read s as words separated by whitespace:
   * any split of s into non-empty space-free words, with a whitespace run
   * before, between (non-empty) and after them, has exactly Fields(s) as
   * its words. Together with FieldsSplit this says the fields are the
   * maximal runs of non-space runes.
   */
  lemma {:induction false} FieldsUnique(s: string, gaps: seq<string>, words: seq<string>)
    requires |gaps| == |words| + 1
    requires forall k :: 0 <= k < |words| ==> IsWord(words[k])
    requires forall k :: 0 <= k < |gaps| ==> IsBlank(gaps[k])
    requires forall k :: 0 < k < |gaps| - 1 ==> gaps[k] != []
    requires Interleave(gaps, words) == s
    ensures words == Fields(s)
    decreases |s|
  {
    if gaps[0] != [] {
      var shorter := [gaps[0][1..]] + gaps[1..];
      InterleavePrefix([gaps[0][0]], shorter, words);
      assert shorter[0] == gaps[0][1..] && shorter[1..] == gaps[1..];
      assert [gaps[0][0]] + gaps[0][1..] == gaps[0];
      assert [gaps[0]] + gaps[1..] == gaps;
      assert IsSpace(s[0]);
      assert s[1..] == Interleave(shorter, words);
      FieldsUnique(s[1..], shorter, words);
    } else if words != [] {
      var w := words[0];
      var n := |w|;
      var rest := Interleave(gaps[1..], words[1..]);
      assert s == w + rest;
      assert s[..n] == w && s[n..] == rest;
      if words[1..] == [] {
        assert rest == gaps[1];
      } else {
        assert gaps[1] != [];
        assert rest[0] == gaps[1][0];
      }
      WordLengthOf(s, n);
      FieldsUnique(rest, gaps[1..], words[1..]);
      assert words == [w] + words[1..];
    }
  }

  /** Tokenization of one text: the segmenter when the text holds a Thai rune, else the fields. */
  function Tokens(text: string, segment: Segmenter): seq<string>
  {
    if ContainsThai(text) then segment(Lower(text)) else Fields(Lower(text))
  }

  /**
   * Outside Thai text the tokens are the lower-cased text's fields: each a
   * word, together the text's non-space runes, and with the whitespace
   * between them the whole lower-cased text. Thai text is left to the
   * segmenter.
   */
  lemma TokensOfText(text: string, segment: Segmenter)
    ensures ContainsThai(text) ==> Tokens(text, segment) == segment(Lower(text))
    ensures !ContainsThai(text) ==>
              && (forall i :: 0 <= i < |Tokens(text, segment)| ==> IsWord(Tokens(text, segment)[i]))
              && Concat(Tokens(text, segment)) == NonSpace(Lower(text))
              && Interleave(Gaps(Lower(text)), Tokens(text, segment)) == Lower(text)
  {
    FieldsKeepNonSpace(Lower(text));
    FieldsSplit(Lower(text));
  }

  /** The distinct words of a list. */
  function Elems(words: seq<string>): set<string>
  {
    set w | w in words
  }
}
