/** Python's whitespace handling as the handlers use it: `str.strip()` on the
    registration form fields, and `" ".join(s.split())` to flatten names and
    gift preferences before they go into a notification. */
module Sanitize {

  /** The characters Python's `str.isspace` accepts; `strip()` and `split()`
      with no argument remove exactly these. */
  predicate IsSpace(c: char)
  {
    || c == ' '
    || ('\t' <= c <= '\r')
    || ('\U{1C}' <= c <= '\U{1F}')
    || c == '\U{85}' || c == '\U{A0}' || c == '\U{1680}'
    || ('\U{2000}' <= c <= '\U{200A}')
    || c == '\U{2028}' || c == '\U{2029}' || c == '\U{202F}' || c == '\U{205F}' || c == '\U{3000}'
  }

  predicate NoSpace(s: string)
  {
    forall i :: 0 <= i < |s| ==> !IsSpace(s[i])
  }

  predicate AllSpace(s: string)
  {
    forall i :: 0 <= i < |s| ==> IsSpace(s[i])
  }

  /** How many whitespace characters the string starts with. */
  function LeadingSpaces(s: string): (k: nat)
    ensures k <= |s| && AllSpace(s[..k])
    ensures k < |s| ==> !IsSpace(s[k])
  {
    if s != [] && IsSpace(s[0]) then
      var k := LeadingSpaces(s[1..]);
      assert s[..k + 1] == [s[0]] + s[1..][..k];
      AllSpaceAppend([s[0]], s[1..][..k]);
      k + 1
    else 0
  }

  /** How many whitespace characters the string ends with. */
  function TrailingSpaces(s: string): (k: nat)
    ensures k <= |s| && AllSpace(s[|s| - k..])
    ensures k < |s| ==> !IsSpace(s[|s| - k - 1])
  {
    if s != [] && IsSpace(s[|s| - 1]) then
      var k := TrailingSpaces(s[..|s| - 1]);
      LastOfSuffix(s, k);
      AllSpaceAppend(s[..|s| - 1][|s| - 1 - k..], [s[|s| - 1]]);
      k + 1
    else 0
  }

  lemma LastOfSuffix<T>(s: seq<T>, k: nat)
    requires k < |s|
    ensures s[|s| - k - 1..] == s[..|s| - 1][|s| - 1 - k..] + [s[|s| - 1]]
  {
  }

  /** `str.lstrip()`. */
  function TrimLeft(s: string): string
  {
    s[LeadingSpaces(s)..]
  }

  lemma AllSpaceAppend(a: string, b: string)
    requires AllSpace(a) && AllSpace(b)
    ensures AllSpace(a + b)
  {
    assert forall i :: |a| <= i < |a + b| ==> (a + b)[i] == b[i - |a|];
  }

  /** `str.strip()`: the input without its leading and its trailing
      whitespace, which is one slice of it with only whitespace before it and
      only whitespace after it. */
  function Strip(s: string): (r: string)
    ensures var i := LeadingSpaces(s);
      i + |r| <= |s| && r == s[i..i + |r|] && AllSpace(s[..i]) && AllSpace(s[i + |r|..])
  {
    var i := LeadingSpaces(s);
    var t := s[i..];
    var j := TrailingSpaces(t);
    StripShape(s, i, t, j);
    s[i..|s| - j]
  }

  lemma StripShape(s: string, i: nat, t: string, j: nat)
    requires i <= |s| && AllSpace(s[..i]) && t == s[i..]
    requires j <= |t| && AllSpace(t[|t| - j..])
    ensures var r := s[i..|s| - j];
      i + |r| <= |s| && r == s[i..i + |r|] && AllSpace(s[..i]) && AllSpace(s[i + |r|..])
  {
    assert t[|t| - j..] == s[|s| - j..];
  }

  /** What is cut off is all of the whitespace at either end: the result
      neither starts nor ends with whitespace. */
  lemma StripEnds(s: string)
    ensures var r := Strip(s);
      r != [] ==> !IsSpace(r[0]) && !IsSpace(r[|r| - 1])
  {
  }

  /** Stripping leaves nothing exactly when the input is all whitespace. */
  lemma StripEmpty(s: string)
    ensures Strip(s) == [] <==> AllSpace(s)
  {
    if Strip(s) == [] {
      SpacesThenSpaces(s, LeadingSpaces(s));
    }
  }

  lemma SpacesThenSpaces(s: string, i: nat)
    requires i <= |s| && AllSpace(s[..i]) && AllSpace(s[i..])
    ensures AllSpace(s)
  {
    assert s == s[..i] + s[i..];
    AllSpaceAppend(s[..i], s[i..]);
  }

  /** The longest prefix that holds no whitespace. */
  function TakeWord(s: string): (w: string)
    ensures |w| <= |s| && w == s[..|w|]
    ensures NoSpace(w)
    ensures |w| == |s| || IsSpace(s[|w|])
  {
    if s == [] || IsSpace(s[0]) then [] else [s[0]] + TakeWord(s[1..])
  }

  predicate IsWord(w: string)
  {
    w != [] && NoSpace(w)
  }

  predicate AllWords(ws: seq<string>)
  {
    forall i :: 0 <= i < |ws| ==> IsWord(ws[i])
  }

  /** `str.split()` with no separator: the maximal runs of non-whitespace. */
  function Split(s: string): (ws: seq<string>)
    ensures AllWords(ws)
    decreases |s|
  {
    var t := TrimLeft(s);
    if t == [] then []
    else
      var w := TakeWord(t);
      assert w != [] by {
        assert !IsSpace(t[0]);
      }
      var rest := Split(t[|w|..]);
      WordsCons(w, rest);
      [w] + rest
  }

  lemma WordsCons(w: string, ws: seq<string>)
    requires IsWord(w) && AllWords(ws)
    ensures AllWords([w] + ws)
  {
    assert forall i :: 0 < i <= |ws| ==> ([w] + ws)[i] == ws[i - 1];
  }

  /** `" ".join(ws)`. */
  function Join(ws: seq<string>): string
  {
    if ws == [] then "" else if |ws| == 1 then ws[0] else ws[0] + " " + Join(ws[1..])
  }

  /** The joined text starts with the first word and has one separator
      between each two neighbours: its length is the words' plus one per
      gap. */
  lemma {:induction false} JoinLength(ws: seq<string>)
    ensures ws == [] ==> Join(ws) == []
    ensures ws != [] ==> |Join(ws)| == |Concat(ws)| + |ws| - 1 && Join(ws)[..|ws[0]|] == ws[0]
  {
    if |ws| > 1 {
      JoinLength(ws[1..]);
    }
  }

  /** A string as `" ".join(s.split())` leaves it: its only whitespace
      characters are single spaces between two non-space characters. */
  predicate IsNormalized(r: string)
  {
    && (forall i :: 0 <= i < |r| && IsSpace(r[i]) ==> r[i] == ' ')
    && (r != [] ==> r[0] != ' ' && r[|r| - 1] != ' ')
    && (forall i :: 0 <= i < |r| - 1 && r[i] == ' ' ==> r[i + 1] != ' ')
  }

  /** The characters of `s` that are not whitespace, in order. */
  function NonSpaces(s: string): string
  {
    if s == [] then [] else (if IsSpace(s[0]) then [] else [s[0]]) + NonSpaces(s[1..])
  }

  /** The words of a list, concatenated with nothing between them. */
  function Concat(ws: seq<string>): string
  {
    if ws == [] then [] else ws[0] + Concat(ws[1..])
  }

  /** `" ".join(s.split())`: the flattened text holds no line break or other
      control whitespace, so it cannot start a new header or body line. */
  function Normalize(s: string): (r: string)
    ensures IsNormalized(r)
    ensures forall i :: 0 <= i < |r| ==> r[i] != '\n' && r[i] != '\r'
    ensures Split(r) == Split(s)
  {
    JoinNormalized(Split(s));
    SplitJoin(Split(s));
    Join(Split(s))
  }

  lemma {:induction false} JoinNormalized(ws: seq<string>)
    requires AllWords(ws)
    ensures IsNormalized(Join(ws))
    ensures ws != [] ==> |Join(ws)| > 0 && Join(ws)[0] == ws[0][0]
  {
    if |ws| == 1 {
      assert Join(ws) == ws[0];
    } else if |ws| > 1 {
      var w, rest := ws[0], Join(ws[1..]);
      JoinNormalized(ws[1..]);
      var r := w + " " + rest;
      assert Join(ws) == r;
      forall i | 0 <= i < |r| && IsSpace(r[i]) ensures r[i] == ' ' {
        if i > |w| {
          assert r[i] == rest[i - |w| - 1];
        }
      }
      forall i | 0 <= i < |r| - 1 && r[i] == ' ' ensures r[i + 1] != ' ' {
        if i > |w| {
          assert r[i] == rest[i - |w| - 1];
          assert r[i + 1] == rest[i - |w|];
        } else if i == |w| {
          assert r[i + 1] == rest[0];
        }
      }
      assert r[|r| - 1] == rest[|rest| - 1];
    }
  }

  lemma {:induction false} TakeWordOf(w: string, t: string)
    requires NoSpace(w)
    requires t == [] || IsSpace(t[0])
    ensures TakeWord(w + t) == w
  {
    if w == [] {
      assert w + t == t;
    } else {
      assert (w + t)[1..] == w[1..] + t;
      TakeWordOf(w[1..], t);
    }
  }

  /** A whitespace character before the text adds no word. */
  lemma SplitAfterSpace(c: char, x: string)
    requires IsSpace(c)
    ensures Split([c] + x) == Split(x)
  {
    assert ([c] + x)[1..] == x;
    assert TrimLeft([c] + x) == TrimLeft(x);
  }

  /** Text splits into no words exactly when it is all whitespace. */
  lemma SplitOfSpaces(s: string)
    ensures Split(s) == [] <==> AllSpace(s)
  {
    if LeadingSpaces(s) == |s| {
      assert s[..|s|] == s;
    }
  }

  /** A word that ends at whitespace or at the end of the text is the first
      word; with `SplitAfterSpace` and `SplitOfSpaces` this determines
      `split()` on every input. */
  lemma SplitWordThen(w: string, tail: string)
    requires IsWord(w)
    requires tail == [] || IsSpace(tail[0])
    ensures Split(w + tail) == [w] + Split(tail)
  {
    var s := w + tail;
    assert s[0] == w[0];
    assert TrimLeft(s) == s;
    TakeWordOf(w, tail);
    assert s[|w|..] == tail;
  }

  lemma HeadTail<T>(s: seq<T>)
    requires s != []
    ensures [s[0]] + s[1..] == s
  {
  }

  /** Splitting a joined list of words gives the words back. */
  lemma {:induction false} SplitJoin(ws: seq<string>)
    requires AllWords(ws)
    ensures Split(Join(ws)) == ws
  {
    if |ws| == 1 {
      SplitOneWord(ws[0]);
    } else if |ws| > 1 {
      var rest := Join(ws[1..]);
      SplitJoin(ws[1..]);
      SplitWordThenRest(ws[0], rest);
      HeadTail(ws);
    }
  }

  lemma SplitOneWord(w: string)
    requires IsWord(w)
    ensures Split(Join([w])) == [w]
  {
    SplitWordThen(w, "");
    assert w + "" == w;
  }

  /** A word, a space and more text split as the word, then the text. */
  lemma SplitWordThenRest(w: string, rest: string)
    requires IsWord(w)
    ensures Split(w + " " + rest) == [w] + Split(rest)
  {
    var tail := " " + rest;
    assert w + " " + rest == w + tail;
    SplitWordThen(w, tail);
    SplitAfterSpace(' ', rest);
  }

  /** A flattened text is the joined list of its own words. */
  lemma {:induction false} NormalizedIsJoin(r: string)
    requires IsNormalized(r)
    ensures Join(Split(r)) == r
    decreases |r|
  {
    if r != [] {
      var w := TakeWord(r);
      SplitFirstWord(r);
      if |w| == |r| {
        assert r[|w|..] == [];
        assert Split([]) == [];
      } else {
        var k := |w|;
        var rest := r[k + 1..];
        NormalizedAfterSpace(r, k);
        SplitSpaceThen(r, k);
        NormalizedIsJoin(rest);
        SplitOfSpaces(rest);
        JoinCons(w, Split(rest));
        Reassemble(r, k);
      }
    }
  }

  lemma SplitFirstWord(r: string)
    requires IsNormalized(r) && r != []
    ensures Split(r) == [TakeWord(r)] + Split(r[|TakeWord(r)|..])
  {
    assert !IsSpace(r[0]);
    assert TrimLeft(r) == r;
  }

  lemma SplitSpaceThen(r: string, k: nat)
    requires k + 1 < |r| && IsSpace(r[k])
    ensures Split(r[k..]) == Split(r[k + 1..])
  {
    assert r[k..] == [r[k]] + r[k + 1..];
    SplitAfterSpace(r[k], r[k + 1..]);
  }

  lemma JoinCons(w: string, ws: seq<string>)
    requires ws != []
    ensures Join([w] + ws) == w + " " + Join(ws)
  {
    assert ([w] + ws)[1..] == ws;
  }

  lemma Reassemble<T>(r: seq<T>, k: nat)
    requires k < |r|
    ensures r == r[..k] + [r[k]] + r[k + 1..]
  {
  }

  /** What follows a space of a flattened text is flattened and non-empty. */
  lemma NormalizedAfterSpace(r: string, k: nat)
    requires IsNormalized(r) && k < |r| && IsSpace(r[k])
    ensures r[k] == ' ' && k + 1 < |r|
    ensures var rest := r[k + 1..]; IsNormalized(rest) && !IsSpace(rest[0])
  {
    var rest := r[k + 1..];
    assert forall i :: 0 <= i < |rest| ==> rest[i] == r[k + 1 + i];
  }

  /** The flattened text is the one flattened text with the input's words:
      this fixes `Normalize` by its contract. */
  lemma NormalizeUnique(s: string, r: string)
    ensures r == Normalize(s) <==> IsNormalized(r) && Split(r) == Split(s)
  {
    if IsNormalized(r) && Split(r) == Split(s) {
      NormalizedIsJoin(r);
    }
  }

  /** Flattening whitespace twice is the same as once. */
  lemma NormalizeIdempotent(s: string)
    ensures Normalize(Normalize(s)) == Normalize(s)
  {
    SplitJoin(Split(s));
  }

  lemma {:induction false} NonSpacesAppend(a: string, b: string)
    ensures NonSpaces(a + b) == NonSpaces(a) + NonSpaces(b)
  {
    if a != [] {
      assert (a + b)[1..] == a[1..] + b;
      NonSpacesAppend(a[1..], b);
    } else {
      assert a + b == b;
    }
  }

  lemma {:induction false} NonSpacesOfSpaces(s: string)
    requires AllSpace(s)
    ensures NonSpaces(s) == []
  {
    if s != [] {
      NonSpacesOfSpaces(s[1..]);
    }
  }

  lemma {:induction false} NonSpacesOfWord(w: string)
    requires NoSpace(w)
    ensures NonSpaces(w) == w
  {
    if w != [] {
      NonSpacesOfWord(w[1..]);
    }
  }

  /** Leading whitespace contributes nothing. */
  lemma NonSpacesTrimLeft(s: string)
    ensures NonSpaces(TrimLeft(s)) == NonSpaces(s)
  {
    var t := TrimLeft(s);
    var k := |s| - |t|;
    assert s == s[..k] + t;
    NonSpacesAppend(s[..k], t);
    NonSpacesOfSpaces(s[..k]);
  }

  /** A string that starts with a word: the word, then the rest. */
  lemma NonSpacesWordFirst(t: string)
    ensures NonSpaces(t) == TakeWord(t) + NonSpaces(t[|TakeWord(t)|..])
  {
    var w := TakeWord(t);
    assert t == w + t[|w|..];
    NonSpacesAppend(w, t[|w|..]);
    NonSpacesOfWord(w);
  }

  /** One step of the split: the first word, then the split of the rest. */
  lemma ConcatSplitStep(s: string)
    requires TrimLeft(s) != []
    ensures var t := TrimLeft(s);
      Concat(Split(s)) == TakeWord(t) + Concat(Split(t[|TakeWord(t)|..]))
  {
    var t := TrimLeft(s);
    var w := TakeWord(t);
    var ws := Split(t[|w|..]);
    assert Split(s) == [w] + ws;
    assert ([w] + ws)[1..] == ws;
  }

  lemma {:induction false} NonSpacesOfSplit(s: string)
    ensures Concat(Split(s)) == NonSpaces(s)
    decreases |s|
  {
    var t := TrimLeft(s);
    NonSpacesTrimLeft(s);
    if t == [] {
      assert Split(s) == [];
    } else {
      var w := TakeWord(t);
      ConcatSplitStep(s);
      NonSpacesWordFirst(t);
      NonSpacesOfSplit(t[|w|..]);
    }
  }

  lemma {:induction false} NonSpacesOfJoin(ws: seq<string>)
    requires AllWords(ws)
    ensures NonSpaces(Join(ws)) == Concat(ws)
  {
    if |ws| == 1 {
      NonSpacesOfWord(ws[0]);
      assert Concat(ws) == ws[0] + Concat([]);
    } else if |ws| > 1 {
      NonSpacesAppend(ws[0] + " ", Join(ws[1..]));
      NonSpacesAppend(ws[0], " ");
      NonSpacesOfWord(ws[0]);
      NonSpacesOfJoin(ws[1..]);
    }
  }

  /** Flattening whitespace keeps every other character, in order. */
  lemma NormalizeKeepsText(s: string)
    ensures NonSpaces(Normalize(s)) == NonSpaces(s)
  {
    NonSpacesOfJoin(Split(s));
    NonSpacesOfSplit(s);
  }

  /** Stripping twice is the same as once. */
  lemma StripIdempotent(s: string)
    ensures Strip(Strip(s)) == Strip(s)
  {
    var r := Strip(s);
    StripEnds(s);
    assert TrimLeft(r) == r;
  }
}
