/** The string operations the store relies on: Python's `str.split()`,
    `str.strip()`, `str.lower()`, `' '.join`, `str.replace`, `str(int)`,
    string ordering, and the director-name normalisation built from them. */
module Text {
  import opened Results

  // ---------------------------------------------------------------------------
  // Characters
  // ---------------------------------------------------------------------------

  /** The code points Python's `str.isspace()` accepts; `str.split()` and
      `str.strip()` without arguments break and trim on exactly these. */
  predicate IsSpace(c: char) {
    || ('\t' <= c <= '\r')
    || ('\U{1C}' <= c <= '\U{20}')
    || c == '\U{85}' || c == '\U{A0}' || c == '\U{1680}'
    || ('\U{2000}' <= c <= '\U{200A}')
    || c == '\U{2028}' || c == '\U{2029}' || c == '\U{202F}'
    || c == '\U{205F}' || c == '\U{3000}'
  }

  /** Lower-casing of one character (ASCII letters only). */
  function LowerChar(c: char): char {
    if 'A' <= c <= 'Z' then (c as int + 32) as char else c
  }

  function Lower(s: string): string {
    seq(|s|, i requires 0 <= i < |s| => LowerChar(s[i]))
  }

  /** Lower-casing never creates or removes whitespace, blanks or commas,
      and applying it twice is applying it once. */
  lemma LowerCharFacts(c: char)
    ensures IsSpace(LowerChar(c)) <==> IsSpace(c)
    ensures LowerChar(c) == ' ' <==> c == ' '
    ensures LowerChar(c) == ',' <==> c == ','
    ensures LowerChar(LowerChar(c)) == LowerChar(c)
  {
  }

  lemma LowerIdempotent(s: string)
    ensures Lower(Lower(s)) == Lower(s)
  {
    forall i | 0 <= i < |s| {
      LowerCharFacts(s[i]);
    }
  }

  // ---------------------------------------------------------------------------
  // str.strip()
  // ---------------------------------------------------------------------------

  /** The number of whitespace characters `s` starts with. */
  function LeadingSpaces(s: string): (n: nat)
    ensures n <= |s|
    ensures forall k :: 0 <= k < n ==> IsSpace(s[k])
    ensures n < |s| ==> !IsSpace(s[n])
  {
    if |s| > 0 && IsSpace(s[0]) then 1 + LeadingSpaces(s[1..]) else 0
  }

  /** The number of whitespace characters `s` ends with. */
  function TrailingSpaces(s: string): (n: nat)
    ensures n <= |s|
    ensures forall k :: |s| - n <= k < |s| ==> IsSpace(s[k])
    ensures n < |s| ==> !IsSpace(s[|s| - n - 1])
  {
    if |s| > 0 && IsSpace(s[|s| - 1]) then 1 + TrailingSpaces(s[..|s| - 1]) else 0
  }

  /** Python's `str.strip()`: what is left of `s` once its leading and
      trailing whitespace is cut away; it neither starts nor ends with
      whitespace, and everything cut away is whitespace. */
  function Strip(s: string): (r: string)
    ensures LeadingSpaces(s) + |r| <= |s|
    ensures r == s[LeadingSpaces(s)..LeadingSpaces(s) + |r|]
    ensures forall k :: LeadingSpaces(s) + |r| <= k < |s| ==> IsSpace(s[k])
    ensures |r| > 0 ==> !IsSpace(r[0]) && !IsSpace(r[|r| - 1])
  {
    var i := LeadingSpaces(s);
    if i == |s| then "" else s[i..|s| - TrailingSpaces(s)]
  }

  // ---------------------------------------------------------------------------
  // str.split() and ' '.join
  // ---------------------------------------------------------------------------

  /** A token of `str.split()`: non-empty and free of whitespace. */
  predicate IsToken(w: string) {
    |w| > 0 && forall i :: 0 <= i < |w| ==> !IsSpace(w[i])
  }

  /** The longest whitespace-free prefix of `s`. */
  function Word(s: string): (w: string)
    ensures |w| <= |s| && w == s[..|w|]
    ensures forall i :: 0 <= i < |w| ==> !IsSpace(w[i])
    ensures |w| < |s| ==> IsSpace(s[|w|])
  {
    if |s| == 0 || IsSpace(s[0]) then [] else [s[0]] + Word(s[1..])
  }

  /** Python's `str.split()` without arguments: the maximal whitespace-free
      runs of `s`, in order. */
  function Split(s: string): (ws: seq<string>)
    ensures forall i :: 0 <= i < |ws| ==> IsToken(ws[i])
    decreases |s|
  {
    if |s| == 0 then []
    else if IsSpace(s[0]) then Split(s[1..])
    else
      var w := Word(s);
      [w] + Split(s[|w|..])
  }

  /** Python's `sep.join(ws)`. */
  function Join(sep: string, ws: seq<string>): string {
    if |ws| == 0 then ""
    else if |ws| == 1 then ws[0]
    else ws[0] + sep + Join(sep, ws[1..])
  }

  lemma JoinCons(sep: string, w: string, ws: seq<string>)
    requires |ws| > 0
    ensures Join(sep, [w] + ws) == w + sep + Join(sep, ws)
  {
    assert ([w] + ws)[1..] == ws;
  }

  /** The longest whitespace-free prefix stops at the first whitespace. */
  lemma {:induction false} WordBeforeSpace(a: string, c: char, b: string)
    requires IsSpace(c)
    ensures Word(a + [c] + b) == Word(a)
  {
    if |a| == 0 {
    } else if IsSpace(a[0]) {
    } else {
      assert (a + [c] + b)[1..] == a[1..] + [c] + b;
      WordBeforeSpace(a[1..], c, b);
    }
  }

  /** Splitting at any whitespace character splits each side:
      the tokens of `a`, a whitespace character, then `b` are those of `a`
      followed by those of `b`. With `SplitOfToken` and `Split("") == []` this pins `Split` down as
      the maximal whitespace-free runs. */
  lemma {:induction false} SplitAroundSpace(a: string, c: char, b: string)
    requires IsSpace(c)
    ensures Split(a + [c] + b) == Split(a) + Split(b)
    decreases |a|
  {
    var s := a + [c] + b;
    if |a| == 0 {
      assert s[1..] == b;
    } else if IsSpace(a[0]) {
      assert s[1..] == a[1..] + [c] + b;
      SplitAroundSpace(a[1..], c, b);
    } else {
      var w := Word(a);
      WordBeforeSpace(a, c, b);
      assert s[|w|..] == a[|w|..] + [c] + b;
      SplitAroundSpace(a[|w|..], c, b);
    }
  }

  /** A whitespace-free, non-empty string is a single token. */
  lemma {:induction false} SplitOfToken(w: string)
    requires IsToken(w)
    ensures Split(w) == [w]
  {
    WordOfToken(w);
    assert w[|w|..] == [];
  }

  lemma {:induction false} WordOfToken(w: string)
    requires forall i :: 0 <= i < |w| ==> !IsSpace(w[i])
    ensures Word(w) == w
  {
    if |w| > 0 {
      assert forall i :: 0 <= i < |w| - 1 ==> w[1..][i] == w[i + 1];
      WordOfToken(w[1..]);
    }
  }

  /** The characters of `s` that are not whitespace, in order. */
  function NonSpace(s: string): string {
    if |s| == 0 then ""
    else if IsSpace(s[0]) then NonSpace(s[1..])
    else [s[0]] + NonSpace(s[1..])
  }

  /** The strings of `ws` written one after another. */
  function Concat(ws: seq<string>): string {
    if |ws| == 0 then "" else ws[0] + Concat(ws[1..])
  }

  lemma {:induction false} NonSpaceAppend(a: string, b: string)
    ensures NonSpace(a + b) == NonSpace(a) + NonSpace(b)
  {
    if |a| > 0 {
      assert (a + b)[0] == a[0] && (a + b)[1..] == a[1..] + b;
      NonSpaceAppend(a[1..], b);
      if !IsSpace(a[0]) {
        assert [a[0]] + NonSpace(a[1..]) + NonSpace(b) == [a[0]] + (NonSpace(a[1..]) + NonSpace(b));
      }
    } else {
      assert a + b == b;
    }
  }

  lemma {:induction false} NonSpaceOfWord(w: string)
    requires forall i :: 0 <= i < |w| ==> !IsSpace(w[i])
    ensures NonSpace(w) == w
  {
    if |w| > 0 {
      assert forall i :: 0 <= i < |w| - 1 ==> w[1..][i] == w[i + 1];
      NonSpaceOfWord(w[1..]);
    }
  }

  /** The tokens hold exactly the non-whitespace characters of `s`, in
      order: splitting loses and adds nothing else. */
  lemma {:induction false} SplitKeepsText(s: string)
    ensures Concat(Split(s)) == NonSpace(s)
    decreases |s|
  {
    if |s| > 0 {
      if IsSpace(s[0]) {
        SplitKeepsText(s[1..]);
      } else {
        var w := Word(s);
        var rest := s[|w|..];
        assert s == w + rest;
        NonSpaceAppend(w, rest);
        NonSpaceOfWord(w);
        SplitKeepsText(rest);
        assert ([w] + Split(rest))[1..] == Split(rest);
      }
    }
  }

  /** Joining tokens with blanks adds only whitespace. */
  lemma {:induction false} JoinKeepsText(ws: seq<string>)
    requires forall i :: 0 <= i < |ws| ==> IsToken(ws[i])
    ensures NonSpace(Join(" ", ws)) == Concat(ws)
  {
    if |ws| == 1 {
      NonSpaceOfWord(ws[0]);
      assert Concat(ws) == ws[0] + Concat(ws[1..]);
    } else if |ws| > 1 {
      JoinCons(" ", ws[0], ws[1..]);
      assert ws == [ws[0]] + ws[1..];
      NonSpaceAppend(ws[0] + " ", Join(" ", ws[1..]));
      NonSpaceAppend(ws[0], " ");
      NonSpaceOfWord(ws[0]);
      JoinKeepsText(ws[1..]);
    }
  }

  /** Splitting a blank-joined list of strings splits each in turn. */
  lemma {:induction false} SplitJoined(ts: seq<string>)
    ensures Split(Join(" ", ts)) == SplitEach(ts)
  {
    if |ts| == 0 {
    } else if |ts| == 1 {
      assert ts == [ts[0]] + ts[1..];
    } else {
      JoinCons(" ", ts[0], ts[1..]);
      assert ts == [ts[0]] + ts[1..];
      assert Join(" ", ts) == ts[0] + [' '] + Join(" ", ts[1..]);
      SplitAroundSpace(ts[0], ' ', Join(" ", ts[1..]));
      SplitJoined(ts[1..]);
    }
  }

  /** The tokens of each string, one string after another. */
  function SplitEach(ts: seq<string>): seq<string> {
    if |ts| == 0 then [] else Split(ts[0]) + SplitEach(ts[1..])
  }

  /** Lower-casing and splitting commute: a token of the lower-cased string
      is the lower-cased token. */
  lemma {:induction false} SplitLower(s: string)
    ensures Split(Lower(s)) == MapLower(Split(s))
    decreases |s|
  {
    var l := Lower(s);
    if |s| == 0 {
    } else if IsSpace(s[0]) {
      LowerCharFacts(s[0]);
      assert l[1..] == Lower(s[1..]);
      SplitLower(s[1..]);
    } else {
      LowerCharFacts(s[0]);
      var w := Word(s);
      WordLower(s);
      assert l[|w|..] == Lower(s[|w|..]);
      SplitLower(s[|w|..]);
    }
  }

  lemma {:induction false} WordLower(s: string)
    ensures Word(Lower(s)) == Lower(Word(s))
  {
    if |s| > 0 {
      LowerCharFacts(s[0]);
      assert Lower(s)[1..] == Lower(s[1..]);
      WordLower(s[1..]);
    }
  }

  function MapLower(ws: seq<string>): (r: seq<string>)
    ensures |r| == |ws|
  {
    if |ws| == 0 then [] else [Lower(ws[0])] + MapLower(ws[1..])
  }

  // ---------------------------------------------------------------------------
  // Director-name normalisation: collapse whitespace, then drop the blank
  // before each comma
  // ---------------------------------------------------------------------------

  /** Every whitespace character is a plain blank, and is neither the first
      nor the last character, nor followed by more whitespace. */
  predicate Collapsed(s: string) {
    forall i :: 0 <= i < |s| && IsSpace(s[i]) ==>
      s[i] == ' ' && 0 < i < |s| - 1 && !IsSpace(s[i + 1])
  }

  /** `Collapsed` without the condition on the first character: the form
      that every suffix of a collapsed string keeps. */
  predicate CollapsedTail(s: string) {
    forall i :: 0 <= i < |s| && IsSpace(s[i]) ==>
      s[i] == ' ' && i < |s| - 1 && !IsSpace(s[i + 1])
  }

  predicate NoBlankBeforeComma(s: string) {
    forall i :: 0 <= i < |s| - 1 && s[i] == ' ' ==> s[i + 1] != ','
  }

  /** What the normalisation guarantees: no leading or trailing whitespace,
      no whitespace but single blanks, and no blank before a comma. */
  predicate Normalized(s: string) {
    Collapsed(s) && NoBlankBeforeComma(s)
  }

  /** Python's `str.replace` of a blank followed by a comma with the comma:
      scans left to right, replacing each non-overlapping occurrence. */
  function DropBlankBeforeComma(s: string): string
    decreases |s|
  {
    if |s| >= 2 && s[0] == ' ' && s[1] == ',' then "," + DropBlankBeforeComma(s[2..])
    else if |s| == 0 then ""
    else [s[0]] + DropBlankBeforeComma(s[1..])
  }

  /** The normalisation applied to a director name before it is split or
      compared: collapse whitespace runs to one blank, trim both ends, then
      remove a blank that precedes a comma. */
  function Normalize(s: string): (r: string)
    ensures Normalized(r)
  {
    var ws := Split(s);
    JoinCollapsed(ws);
    var j := Join(" ", ws);
    DropKeepsCollapsed(j);
    DropBlankBeforeComma(j)
  }

  lemma {:induction false} JoinCollapsed(ws: seq<string>)
    requires forall i :: 0 <= i < |ws| ==> IsToken(ws[i])
    ensures Collapsed(Join(" ", ws))
    ensures |ws| > 0 ==> |Join(" ", ws)| > 0
  {
    if |ws| <= 1 {
    } else {
      var w := ws[0];
      var rest := Join(" ", ws[1..]);
      JoinCollapsed(ws[1..]);
      var s := Join(" ", ws);
      assert s == w + " " + rest;
      forall i | 0 <= i < |s|
        ensures IsSpace(s[i]) ==> s[i] == ' ' && 0 < i < |s| - 1 && !IsSpace(s[i + 1])
      {
        if i < |w| {
          assert s[i] == w[i];
        } else if i == |w| {
          assert s[i + 1] == rest[0];
        } else if IsSpace(s[i]) {
          var k := i - |w| - 1;
          assert s[i] == rest[k];
          assert s[i + 1] == rest[k + 1];
        }
      }
    }
  }

  lemma DropKeepsCollapsed(s: string)
    requires CollapsedTail(s)
    ensures CollapsedTail(DropBlankBeforeComma(s))
    ensures NoBlankBeforeComma(DropBlankBeforeComma(s))
    ensures Collapsed(s) ==> Collapsed(DropBlankBeforeComma(s))
  {
    DropShape(s);
    DropNoBlank(s);
  }

  /** Removing blanks before commas keeps the blanks single and the first
      character in place. */
  lemma {:induction false} DropShape(s: string)
    requires CollapsedTail(s)
    ensures CollapsedTail(DropBlankBeforeComma(s))
    ensures |s| > 0 && !IsSpace(s[0]) ==>
              |DropBlankBeforeComma(s)| > 0 && DropBlankBeforeComma(s)[0] == s[0]
    decreases |s|
  {
    if |s| == 0 {
    } else if |s| >= 2 && s[0] == ' ' && s[1] == ',' {
      var t := s[2..];
      SuffixCollapsedTail(s, 2);
      DropShape(t);
    } else {
      var t := s[1..];
      SuffixCollapsedTail(s, 1);
      DropShape(t);
      var d := DropBlankBeforeComma(s);
      assert d == [s[0]] + DropBlankBeforeComma(t);
      if IsSpace(s[0]) {
        assert |t| > 0 && !IsSpace(t[0]);
        assert d[1] == s[1];
      }
    }
  }

  /** After the replacement no blank precedes a comma. */
  lemma {:induction false} DropNoBlank(s: string)
    requires CollapsedTail(s)
    ensures NoBlankBeforeComma(DropBlankBeforeComma(s))
    decreases |s|
  {
    if |s| == 0 {
    } else if |s| >= 2 && s[0] == ' ' && s[1] == ',' {
      var t := s[2..];
      SuffixCollapsedTail(s, 2);
      DropNoBlank(t);
      assert DropBlankBeforeComma(s) == "," + DropBlankBeforeComma(t);
    } else {
      var t := s[1..];
      SuffixCollapsedTail(s, 1);
      DropNoBlank(t);
      var d := DropBlankBeforeComma(s);
      assert d == [s[0]] + DropBlankBeforeComma(t);
      if s[0] == ' ' {
        DropShape(t);
        assert d[1] == s[1];
      }
    }
  }

  lemma SuffixCollapsedTail(s: string, k: nat)
    requires CollapsedTail(s) && k <= |s|
    ensures CollapsedTail(s[k..])
  {
    var t := s[k..];
    forall i | 0 <= i < |t| && IsSpace(t[i])
      ensures t[i] == ' ' && i < |t| - 1 && !IsSpace(t[i + 1])
    {
      assert t[i] == s[i + k];
    }
  }

  lemma {:induction false} DropIdentity(s: string)
    requires NoBlankBeforeComma(s)
    ensures DropBlankBeforeComma(s) == s
    decreases |s|
  {
    if |s| > 0 {
      assert NoBlankBeforeComma(s[1..]);
      DropIdentity(s[1..]);
    }
  }

  /** A collapsed string is rebuilt by joining its tokens with blanks. */
  lemma {:induction false} JoinSplitCollapsed(s: string)
    requires Collapsed(s)
    ensures Join(" ", Split(s)) == s
    decreases |s|
  {
    if |s| > 0 {
      var w := Word(s);
      if |w| == |s| {
        SplitOfToken(s);
      } else {
        var t := s[|w| + 1..];
        CollapsedAfterBlank(s, |w|);
        JoinSplitCollapsed(t);
        SplitOfToken(w);
        assert s == w + [' '] + t;
        SplitAroundSpace(w, ' ', t);
        JoinCons(" ", w, Split(t));
      }
    }
  }

  /** What follows a blank of a collapsed string is collapsed, and non-empty. */
  lemma CollapsedAfterBlank(s: string, i: nat)
    requires Collapsed(s) && i < |s| && IsSpace(s[i])
    ensures Collapsed(s[i + 1..]) && |s[i + 1..]| > 0
  {
    var t := s[i + 1..];
    forall k | 0 <= k < |t| && IsSpace(t[k])
      ensures t[k] == ' ' && 0 < k < |t| - 1 && !IsSpace(t[k + 1])
    {
      assert t[k] == s[i + 1 + k];
    }
  }

  /** The normalised strings are exactly the fixed points of `Normalize`. */
  lemma NormalizeFixedPoints(s: string)
    ensures Normalize(s) == s <==> Normalized(s)
  {
    if Normalized(s) {
      JoinSplitCollapsed(s);
      DropIdentity(s);
    }
  }

  /** Normalising twice is normalising once. */
  lemma NormalizeIdempotent(s: string)
    ensures Normalize(Normalize(s)) == Normalize(s)
  {
    NormalizeFixedPoints(Normalize(s));
  }

  /** Replacing a blank-comma pair by the comma removes only a blank. */
  lemma {:induction false} DropKeepsText(s: string)
    ensures NonSpace(DropBlankBeforeComma(s)) == NonSpace(s)
    decreases |s|
  {
    if |s| >= 2 && s[0] == ' ' && s[1] == ',' {
      DropKeepsText(s[2..]);
      assert s[1..][1..] == s[2..];
      assert ("," + DropBlankBeforeComma(s[2..]))[1..] == DropBlankBeforeComma(s[2..]);
    } else if |s| > 0 {
      DropKeepsText(s[1..]);
      assert ([s[0]] + DropBlankBeforeComma(s[1..]))[1..] == DropBlankBeforeComma(s[1..]);
    }
  }

  /** The normalisation only removes or rewrites whitespace: every other
      character of the name survives it, in order. */
  lemma NormalizeKeepsText(s: string)
    ensures NonSpace(Normalize(s)) == NonSpace(s)
  {
    DropKeepsText(Join(" ", Split(s)));
    JoinKeepsText(Split(s));
    SplitKeepsText(s);
  }

  /** Unless a comma follows a whitespace run, the normalisation turns each
      whitespace run between two words into exactly one blank: the result
      is the words joined by blanks, and it has the same words. */
  lemma NormalizeKeepsWords(s: string)
    requires forall i :: 1 <= i < |Split(s)| ==> Split(s)[i][0] != ','
    ensures Normalize(s) == Join(" ", Split(s))
    ensures Split(Normalize(s)) == Split(s)
  {
    var ws := Split(s);
    JoinNoBlankComma(ws);
    DropIdentity(Join(" ", ws));
    SplitJoined(ws);
    SplitEachTokens(ws);
  }

  /** The tokens glued back together as the normalisation does: one blank
      between two tokens, none before a token that starts with a comma. */
  function Glue(ws: seq<string>): string {
    if |ws| == 0 then ""
    else if |ws| == 1 then ws[0]
    else ws[0] + ((if |ws[1]| > 0 && ws[1][0] == ',' then "" else " ") + Glue(ws[1..]))
  }

  /** The normalised name, for every input: its words, each gap between two
      words collapsed to one blank, or to nothing before a word that starts
      with a comma. */
  lemma NormalizeIsGlue(s: string)
    ensures Normalize(s) == Glue(Split(s))
  {
    DropGlue(Split(s));
  }

  /** Removing the blank before each comma from blank-joined tokens glues
      them. */
  lemma {:induction false} DropGlue(ws: seq<string>)
    requires forall i :: 0 <= i < |ws| ==> IsToken(ws[i])
    ensures DropBlankBeforeComma(Join(" ", ws)) == Glue(ws)
  {
    if |ws| == 1 {
      DropWord(ws[0], "");
      assert ws[0] + "" == ws[0];
    } else if |ws| > 1 {
      DropGlue(ws[1..]);
      JoinHead(ws[1..]);
      DropGlueStep(ws);
    }
  }

  /** The step of `DropGlue`: the first word, then the rest glued. */
  lemma DropGlueStep(ws: seq<string>)
    requires |ws| > 1 && IsToken(ws[0]) && IsToken(ws[1])
    requires |Join(" ", ws[1..])| > 0 && Join(" ", ws[1..])[0] == ws[1][0]
    requires DropBlankBeforeComma(Join(" ", ws[1..])) == Glue(ws[1..])
    ensures DropBlankBeforeComma(Join(" ", ws)) == Glue(ws)
  {
    var w, rest := ws[0], Join(" ", ws[1..]);
    assert Join(" ", ws) == w + (" " + rest);
    DropJoined(w, rest);
  }

  /** Blank-free text, a blank, then more: the blank goes exactly when a
      comma follows it. */
  lemma DropJoined(w: string, rest: string)
    requires forall i :: 0 <= i < |w| ==> w[i] != ' '
    requires |rest| > 0
    ensures DropBlankBeforeComma(w + (" " + rest))
            == w + ((if rest[0] == ',' then "" else " ") + DropBlankBeforeComma(rest))
  {
    DropWord(w, " " + rest);
    DropAfterBlank(rest);
  }

  /** A blank in front goes when a comma follows it and stays otherwise. */
  lemma DropAfterBlank(t: string)
    requires |t| > 0
    ensures DropBlankBeforeComma(" " + t)
            == (if t[0] == ',' then "" else " ") + DropBlankBeforeComma(t)
  {
    assert (" " + t)[1..] == t;
    if t[0] == ',' {
      assert (" " + t)[2..] == t[1..];
    }
  }

  /** Blank-free text in front is left as it is. */
  lemma {:induction false} DropWord(w: string, t: string)
    requires forall i :: 0 <= i < |w| ==> w[i] != ' '
    ensures DropBlankBeforeComma(w + t) == w + DropBlankBeforeComma(t)
  {
    if |w| > 0 {
      assert (w + t)[1..] == w[1..] + t;
      DropWord(w[1..], t);
      assert [w[0]] + (w[1..] + DropBlankBeforeComma(t)) == w + DropBlankBeforeComma(t);
    } else {
      assert w + t == t;
    }
  }

  /** Blanks put between tokens precede a comma only where a token after
      the first starts with one. */
  lemma {:induction false} JoinNoBlankComma(ws: seq<string>)
    requires forall i :: 0 <= i < |ws| ==> IsToken(ws[i])
    requires forall i :: 1 <= i < |ws| ==> |ws[i]| > 0 && ws[i][0] != ','
    ensures NoBlankBeforeComma(Join(" ", ws))
  {
    if |ws| > 1 {
      var w := ws[0];
      var rest := Join(" ", ws[1..]);
      var s := Join(" ", ws);
      JoinNoBlankComma(ws[1..]);
      JoinHead(ws[1..]);
      assert s == w + " " + rest;
      forall i | 0 <= i < |s| - 1
        ensures s[i] == ' ' ==> s[i + 1] != ','
      {
        if i < |w| {
          assert s[i] == w[i];
        } else if i > |w| {
          assert s[i] == rest[i - |w| - 1] && s[i + 1] == rest[i - |w|];
        }
      }
    }
  }

  /** A blank-join of tokens starts with the first token's first character. */
  lemma JoinHead(ws: seq<string>)
    requires |ws| > 0 && IsToken(ws[0])
    ensures |Join(" ", ws)| > 0 && Join(" ", ws)[0] == ws[0][0]
  {
  }

  /** Splitting each token on its own gives the tokens back. */
  lemma {:induction false} SplitEachTokens(ws: seq<string>)
    requires forall i :: 0 <= i < |ws| ==> IsToken(ws[i])
    ensures SplitEach(ws) == ws
  {
    if |ws| > 0 {
      SplitOfToken(ws[0]);
      SplitEachTokens(ws[1..]);
    }
  }

  // ---------------------------------------------------------------------------
  // Splitting a director name at its first comma-blank separator
  // ---------------------------------------------------------------------------

  /** The separator `", "` begins at index `i` of `s`. */
  predicate SepAt(s: string, i: int) {
    0 <= i && i + 1 < |s| && s[i] == ',' && s[i + 1] == ' '
  }

  /** Python's `', ' in s`. */
  predicate ContainsSep(s: string) {
    exists i :: 0 <= i < |s| && SepAt(s, i)
  }

  /** The index of the first `", "` in `s`, if there is one. */
  function FindSep(s: string): (r: Option<nat>)
    ensures r.Some? ==> SepAt(s, r.value) && forall j :: 0 <= j < r.value ==> !SepAt(s, j)
    ensures r.None? ==> !ContainsSep(s)
  {
    if |s| < 2 then None
    else if s[0] == ',' && s[1] == ' ' then Some(0)
    else
      assert forall j :: 1 <= j < |s| ==> (SepAt(s, j) <==> SepAt(s[1..], j - 1));
      assert !SepAt(s, 0);
      match FindSep(s[1..])
      case None => None
      case Some(i) => Some(i + 1)
  }

  /** Python's split at the first `", "` unpacked into two names: the text before the first
      separator and the text after it; `None` when there is no separator
      (Python then has only one part to unpack and raises). */
  function SplitName(s: string): (r: Option<(string, string)>)
    ensures r.None? <==> !ContainsSep(s)
    ensures r.Some? ==> r.value.0 + ", " + r.value.1 == s && !ContainsSep(r.value.0)
  {
    match FindSep(s)
    case None => None
    case Some(i) =>
      var last := s[..i];
      assert forall j :: 0 <= j < |last| && SepAt(last, j) ==> SepAt(s, j);
      Some((last, s[i + 2..]))
  }

  /** The first-separator split is the only split whose first part has no
      separator: `SplitName` inverts `last + ", " + given`. */
  lemma SplitNameInverts(last: string, given: string)
    requires !ContainsSep(last)
    ensures SplitName(last + ", " + given) == Some((last, given))
  {
    var s := last + ", " + given;
    assert SepAt(s, |last|);
    var i := FindSep(s).value;
    if i < |last| {
      assert s[i] == last[i];
      if i + 1 < |last| {
        assert SepAt(last, i);
      }
    }
    assert s[..|last|] == last;
    assert s[|last| + 2..] == given;
  }

  /** Lower-casing neither creates nor destroys a separator. */
  lemma LowerKeepsSep(s: string)
    ensures ContainsSep(Lower(s)) <==> ContainsSep(s)
  {
    var l := Lower(s);
    forall i | 0 <= i < |s|
      ensures SepAt(l, i) <==> SepAt(s, i)
    {
      LowerCharFacts(s[i]);
      if i + 1 < |s| {
        LowerCharFacts(s[i + 1]);
      }
    }
    if ContainsSep(s) {
      var i :| 0 <= i < |s| && SepAt(s, i);
      assert SepAt(l, i);
    }
    if ContainsSep(l) {
      var i :| 0 <= i < |l| && SepAt(l, i);
      assert SepAt(s, i);
    }
  }

  // ---------------------------------------------------------------------------
  // str(int)
  // ---------------------------------------------------------------------------

  function DigitChar(d: nat): char
    requires d < 10
  {
    "0123456789"[d]
  }

  function DigitValue(c: char): nat {
    if '0' <= c <= '9' then c as int - '0' as int else 0
  }

  /** Decimal digits of `n`, without leading zeros. */
  function NatToStr(n: nat): string
    decreases n
  {
    if n < 10 then [DigitChar(n)] else NatToStr(n / 10) + [DigitChar(n % 10)]
  }

  /** Python's `str(n)` for an integer. */
  function IntToStr(n: int): string {
    if n < 0 then "-" + NatToStr(-n) else NatToStr(n)
  }

  /** Reads a string of decimal digits back as a number. */
  function ParseNat(s: string): nat {
    if |s| == 0 then 0 else ParseNat(s[..|s| - 1]) * 10 + DigitValue(s[|s| - 1])
  }

  /** `ParseNat` inverts `NatToStr`, and the digits never start with '-'. */
  lemma {:induction false} NatToStrRoundTrip(n: nat)
    ensures ParseNat(NatToStr(n)) == n
    ensures |NatToStr(n)| > 0 && '0' <= NatToStr(n)[0] <= '9'
    decreases n
  {
    var s := NatToStr(n);
    if n >= 10 {
      NatToStrRoundTrip(n / 10);
      assert s[..|s| - 1] == NatToStr(n / 10);
    }
  }

  // ---------------------------------------------------------------------------
  // String ordering
  // ---------------------------------------------------------------------------

  /** Python's `a < b` on strings: lexicographic by code point, a proper
      prefix coming first. */
  predicate StrLess(a: string, b: string) {
    if |a| == 0 then |b| > 0
    else if |b| == 0 then false
    else if a[0] == b[0] then StrLess(a[1..], b[1..])
    else a[0] < b[0]
  }

  lemma {:induction false} StrLessIrreflexive(a: string)
    ensures !StrLess(a, a)
  {
    if |a| > 0 {
      StrLessIrreflexive(a[1..]);
    }
  }

  lemma {:induction false} StrLessTrichotomy(a: string, b: string)
    ensures a == b || StrLess(a, b) || StrLess(b, a)
  {
    if |a| > 0 && |b| > 0 && a[0] == b[0] {
      StrLessTrichotomy(a[1..], b[1..]);
      if a[1..] == b[1..] {
        assert a == [a[0]] + a[1..] && b == [b[0]] + b[1..];
      }
    }
  }

  lemma {:induction false} StrLessAsymmetric(a: string, b: string)
    ensures !(StrLess(a, b) && StrLess(b, a))
  {
    if |a| > 0 && |b| > 0 && a[0] == b[0] {
      StrLessAsymmetric(a[1..], b[1..]);
    }
  }

  lemma {:induction false} StrLessTransitive(a: string, b: string, c: string)
    requires StrLess(a, b) && StrLess(b, c)
    ensures StrLess(a, c)
  {
    if |a| > 0 && |b| > 0 && |c| > 0 && a[0] == b[0] && b[0] == c[0] {
      StrLessTransitive(a[1..], b[1..], c[1..]);
    }
  }
}
