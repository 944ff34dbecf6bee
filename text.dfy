/** Python string operations the core relies on, over `string` (= seq<char>):
    `strip`, `split`, `join`, `replace`, `in`, `startswith`/`endswith`,
    slicing with negative ends, `lower` and decimal formatting of integers. */
module Text {

  /** The characters Python's `str.isspace` accepts, which `str.strip()` and
      `str.split()` without arguments treat as whitespace. */
  const Whitespace: set<char> := {
    ' ', '\t', '\n', '\r', '\U{000B}', '\U{000C}',
    '\U{001C}', '\U{001D}', '\U{001E}', '\U{001F}', '\U{0085}', '\U{00A0}',
    '\U{1680}', '\U{2000}', '\U{2001}', '\U{2002}', '\U{2003}', '\U{2004}',
    '\U{2005}', '\U{2006}', '\U{2007}', '\U{2008}', '\U{2009}', '\U{200A}',
    '\U{2028}', '\U{2029}', '\U{202F}', '\U{205F}', '\U{3000}'
  }

  predicate StartsWith(s: string, prefix: string) {
    prefix <= s
  }

  predicate EndsWith(s: string, suffix: string) {
    |suffix| <= |s| && s[|s| - |suffix|..] == suffix
  }

  /** Python `sub in s`. */
  /** `sub` occurs in `s` starting at index `i`. */
  predicate OccursAt(s: string, sub: string, i: int) {
    0 <= i && i + |sub| <= |s| && s[i..i + |sub|] == sub
  }

  predicate Contains(s: string, sub: string)
    decreases |s|
  {
    sub <= s || (s != [] && Contains(s[1..], sub))
  }

  lemma {:induction false} ContainsAt(s: string, sub: string, i: nat)
    requires OccursAt(s, sub, i)
    ensures Contains(s, sub)
    decreases i
  {
    if i > 0 {
      assert s[1..][i - 1..i - 1 + |sub|] == sub;
      assert OccursAt(s[1..], sub, i - 1);
      ContainsAt(s[1..], sub, i - 1);
    } else {
      assert sub <= s;
    }
  }

  /** `Contains` holds exactly when `sub` occurs at some position of `s`. */
  lemma {:induction false} ContainsIff(s: string, sub: string)
    ensures Contains(s, sub) <==> exists i :: OccursAt(s, sub, i)
    decreases |s|
  {
    if Contains(s, sub) {
      if sub <= s {
        assert OccursAt(s, sub, 0);
      } else {
        ContainsIff(s[1..], sub);
        var j :| OccursAt(s[1..], sub, j);
        assert s[j + 1..j + 1 + |sub|] == s[1..][j..j + |sub|];
        assert OccursAt(s, sub, j + 1);
      }
    }
    if exists i :: OccursAt(s, sub, i) {
      var i :| OccursAt(s, sub, i);
      ContainsAt(s, sub, i);
    }
  }

  /** Python `s.rstrip(chars)`: drops the longest suffix made of `cut` characters. */
  function RStrip(s: string, cut: set<char>): (r: string)
    ensures |r| <= |s| && r == s[..|r|]
    ensures r == [] || r[|r| - 1] !in cut
    ensures forall i :: |r| <= i < |s| ==> s[i] in cut
    decreases |s|
  {
    if s != [] && s[|s| - 1] in cut then RStrip(s[..|s| - 1], cut) else s
  }

  lemma RStripKeeps(s: string, cut: set<char>)
    requires s == [] || s[|s| - 1] !in cut
    ensures RStrip(s, cut) == s
  {
  }

  lemma RStripDrops(s: string, c: char, cut: set<char>)
    requires c in cut
    ensures RStrip(s + [c], cut) == RStrip(s, cut)
  {
    assert (s + [c])[..|s|] == s;
  }

  /** Python `s.strip(chars)`: drop the leading `cut` characters (the
      recursion), then the trailing ones; `Strip(s, Whitespace)` is
      `s.strip()`. */
  function Strip(s: string, cut: set<char>): (r: string)
    ensures r == [] || (r[0] !in cut && r[|r| - 1] !in cut)
    ensures r == [] <==> forall i :: 0 <= i < |s| ==> s[i] in cut
    decreases |s|
  {
    if s != [] && s[0] in cut then
      var r := Strip(s[1..], cut);
      assert (forall i :: 0 <= i < |s[1..]| ==> s[1..][i] in cut) ==> forall i :: 0 <= i < |s| ==> s[i] in cut by {
        if forall i :: 0 <= i < |s[1..]| ==> s[1..][i] in cut {
          forall i | 0 <= i < |s| ensures s[i] in cut {
            if i > 0 { assert s[i] == s[1..][i - 1]; }
          }
        }
      }
      r
    else
      RStrip(s, cut)
  }

  /** The stripped text is a piece of the original. */
  lemma {:induction false} StripOccurs(s: string, cut: set<char>)
    ensures exists k :: OccursAt(s, Strip(s, cut), k)
    decreases |s|
  {
    if s != [] && s[0] in cut {
      StripOccurs(s[1..], cut);
      var k :| OccursAt(s[1..], Strip(s[1..], cut), k);
      var r := Strip(s, cut);
      assert s[k + 1..k + 1 + |r|] == s[1..][k..k + |r|];
      assert OccursAt(s, r, k + 1);
    } else {
      assert OccursAt(s, Strip(s, cut), 0);
    }
  }

  /** A string that neither starts nor ends with a cut character is kept whole. */
  lemma StripKeeps(s: string, cut: set<char>)
    requires s != [] && s[0] !in cut && s[|s| - 1] !in cut
    ensures Strip(s, cut) == s
  {
  }

  /** Stripping twice changes nothing more. */
  lemma StripIdempotent(s: string, cut: set<char>)
    ensures Strip(Strip(s, cut), cut) == Strip(s, cut)
  {
    var t := Strip(s, cut);
    if t != [] {
      StripKeeps(t, cut);
    }
  }

  /** Python `s.split(sep)` for a one-character separator: always at least one
      part, possibly empty ones. */
  function Split(s: string, sep: char): (parts: seq<string>)
    ensures |parts| >= 1
    ensures forall p :: p in parts ==> sep !in p
    decreases |s|
  {
    if s == [] then [[]]
    else
      var rest := Split(s[1..], sep);
      if s[0] == sep then [[]] + rest
      else
        assert forall p :: p in rest[1..] ==> p in rest;
        [[s[0]] + rest[0]] + rest[1..]
  }

  /** Python `sep.join(parts)`. */
  function Join(parts: seq<string>, sep: string): string
    decreases |parts|
  {
    if parts == [] then []
    else if |parts| == 1 then parts[0]
    else parts[0] + sep + Join(parts[1..], sep)
  }

  /** Joining one more part appends the separator and that part. */
  lemma {:induction false} JoinSnoc(parts: seq<string>, last: string, sep: string)
    requires parts != []
    ensures Join(parts + [last], sep) == Join(parts, sep) + sep + last
    decreases |parts|
  {
    if |parts| == 1 {
      assert parts + [last] == [parts[0], last];
    } else {
      assert (parts + [last])[1..] == parts[1..] + [last];
      JoinSnoc(parts[1..], last, sep);
    }
  }

  /** Splitting and re-joining with the same separator gives back the string. */
  lemma {:induction false} JoinSplit(s: string, sep: char)
    ensures Join(Split(s, sep), [sep]) == s
    decreases |s|
  {
    if s != [] {
      JoinSplit(s[1..], sep);
      var rest := Split(s[1..], sep);
      if s[0] != sep {
        if |rest| == 1 {
        } else {
          assert [[s[0]] + rest[0]] + rest[1..] == [[s[0]] + rest[0]] + rest[1..];
          assert Join(rest, [sep]) == rest[0] + [sep] + Join(rest[1..], [sep]);
        }
      }
    }
  }

  /** Moving the first character of the first part out of a join. */
  lemma JoinPeel(parts: seq<string>, sep: string)
    requires parts != [] && parts[0] != []
    ensures Join(parts, sep) == [parts[0][0]] + Join([parts[0][1..]] + parts[1..], sep)
  {
    var p0 := parts[0];
    var tail := [p0[1..]] + parts[1..];
    assert p0 == [p0[0]] + p0[1..];
    if |parts| > 1 {
      assert tail[1..] == parts[1..];
    }
  }

  /** A leading non-separator character joins the first part. */
  lemma SplitPeel(c: char, j: string, sep: char)
    requires c != sep
    ensures Split([c] + j, sep) == [[c] + Split(j, sep)[0]] + Split(j, sep)[1..]
  {
    assert ([c] + j)[1..] == j;
  }

  /** Joining parts that do not contain the separator and splitting again
      gives back the parts. */
  lemma {:induction false} SplitJoin(parts: seq<string>, sep: char)
    requires parts != []
    requires forall p :: p in parts ==> sep !in p
    ensures Split(Join(parts, [sep]), sep) == parts
    decreases |parts|, |parts[0]|
  {
    if parts[0] != [] {
      var p0 := parts[0];
      var tail := [p0[1..]] + parts[1..];
      assert forall p :: p in tail ==> sep !in p by {
        assert forall c :: c in p0[1..] ==> c in p0;
      }
      SplitJoin(tail, sep);
      JoinPeel(parts, [sep]);
      assert p0[0] in p0;
      SplitPeel(p0[0], Join(tail, [sep]), sep);
      assert [[p0[0]] + tail[0]] + tail[1..] == parts by {
        assert [p0[0]] + p0[1..] == p0;
        assert tail[1..] == parts[1..];
      }
    } else if |parts| > 1 {
      SplitJoin(parts[1..], sep);
      assert Join(parts, [sep]) == [sep] + Join(parts[1..], [sep]);
    }
  }

  /** A leading separator-free word followed by the separator is the first
      part, and the rest splits on its own. */
  lemma {:induction false} SplitCons(w: string, sep: char, t: string)
    requires sep !in w
    ensures Split(w + [sep] + t, sep) == [w] + Split(t, sep)
    decreases |w|
  {
    if w == [] {
      assert w + [sep] + t == [sep] + t;
      assert ([sep] + t)[1..] == t;
    } else {
      SplitCons(w[1..], sep, t);
      var s := w + [sep] + t;
      assert s[0] == w[0] && s[1..] == w[1..] + [sep] + t;
      assert [w[0]] + w[1..] == w;
    }
  }

  /** A join of several parts ends with the separator and the last part. */
  lemma JoinEndsWithLast(parts: seq<string>, sep: string)
    requires |parts| >= 2
    ensures EndsWith(Join(parts, sep), sep + parts[|parts| - 1])
  {
    var init := parts[..|parts| - 1];
    JoinSnoc(init, parts[|parts| - 1], sep);
    assert init + [parts[|parts| - 1]] == parts;
  }

  /** Where part `i` starts in `Join(parts, sep)`. */
  function Offset(parts: seq<string>, sep: string, i: nat): nat
    requires i < |parts|
    decreases i
  {
    if i == 0 then 0 else |parts[0]| + |sep| + Offset(parts[1..], sep, i - 1)
  }

  /** Every part appears in the join, at its offset. */
  lemma {:induction false} JoinHoldsPart(parts: seq<string>, sep: string, i: nat)
    requires i < |parts|
    ensures OccursAt(Join(parts, sep), parts[i], Offset(parts, sep, i))
    decreases i
  {
    if |parts| > 1 {
      var tail := Join(parts[1..], sep);
      assert Join(parts, sep) == parts[0] + sep + tail;
      if i > 0 {
        JoinHoldsPart(parts[1..], sep, i - 1);
        var k := Offset(parts[1..], sep, i - 1);
        assert (parts[0] + sep + tail)[|parts[0]| + |sep| + k..|parts[0]| + |sep| + k + |parts[i]|]
            == tail[k..k + |parts[i]|];
      } else {
        assert (parts[0] + sep + tail)[..|parts[0]|] == parts[0];
      }
    }
  }

  /** Parts appear in their order, each followed by the separator before the
      next one starts. */
  lemma {:induction false} JoinPartsInOrder(parts: seq<string>, sep: string, i: nat, j: nat)
    requires i < j < |parts|
    ensures Offset(parts, sep, i) + |parts[i]| + |sep| <= Offset(parts, sep, j)
    decreases i
  {
    if i > 0 {
      JoinPartsInOrder(parts[1..], sep, i - 1, j - 1);
    }
  }

  /** Python `"".join(parts)`. */
  function Concat(parts: seq<string>): (r: string)
    ensures |parts| == 1 ==> r == parts[0]
    decreases |parts|
  {
    if parts == [] then [] else Concat(parts[..|parts| - 1]) + parts[|parts| - 1]
  }

  /** The parts that are not empty, in order (`[p for p in parts if p]`). */
  function NonEmpty(parts: seq<string>): (r: seq<string>)
    ensures forall p :: p in r <==> p in parts && p != []
    ensures |r| <= |parts|
    decreases |parts|
  {
    if parts == [] then []
    else if parts[0] == [] then NonEmpty(parts[1..])
    else [parts[0]] + NonEmpty(parts[1..])
  }

  /** Splitting at every character of `cut`, keeping empty fields. */
  function Fields(s: string, cut: set<char>): (parts: seq<string>)
    ensures |parts| >= 1
    ensures forall p :: p in parts ==> forall i :: 0 <= i < |p| ==> p[i] !in cut
    decreases |s|
  {
    if s == [] then [[]]
    else
      var rest := Fields(s[1..], cut);
      if s[0] in cut then [[]] + rest
      else
        assert forall p :: p in rest[1..] ==> p in rest;
        assert forall i :: 0 < i < |[s[0]] + rest[0]| ==> ([s[0]] + rest[0])[i] == rest[0][i - 1];
        [[s[0]] + rest[0]] + rest[1..]
  }

  /** Python `s.split()`: the maximal runs of non-whitespace characters. */
  function Words(s: string): (ws: seq<string>)
    ensures forall w :: w in ws ==> w != [] && forall i :: 0 <= i < |w| ==> w[i] !in Whitespace
  {
    NonEmpty(Fields(s, Whitespace))
  }

  /** A word with no cut character is one field. */
  lemma {:induction false} FieldsWord(w: string, cut: set<char>)
    requires forall i :: 0 <= i < |w| ==> w[i] !in cut
    ensures Fields(w, cut) == [w]
    decreases |w|
  {
    if w != [] {
      FieldsWord(w[1..], cut);
      assert [w[0]] + w[1..] == w;
    }
  }

  /** A word followed by a cut character is the first field. */
  lemma {:induction false} FieldsCons(w: string, c: char, t: string, cut: set<char>)
    requires c in cut && forall i :: 0 <= i < |w| ==> w[i] !in cut
    ensures Fields(w + [c] + t, cut) == [w] + Fields(t, cut)
    decreases |w|
  {
    if w == [] {
      assert w + [c] + t == [c] + t;
      assert ([c] + t)[1..] == t;
    } else {
      var s := w + [c] + t;
      assert s[1..] == w[1..] + [c] + t;
      var rest := Fields(s[1..], cut);
      assert rest == [w[1..]] + Fields(t, cut) by {
        FieldsCons(w[1..], c, t, cut);
      }
      assert s[0] == w[0] && s[0] !in cut;
      assert Fields(s, cut) == [[s[0]] + rest[0]] + rest[1..];
      assert [s[0]] + rest[0] == w;
    }
  }

  /** Words joined by single spaces split back into those words. */
  lemma {:induction false} WordsJoin(parts: seq<string>)
    requires forall w :: w in parts ==> w != [] && forall i :: 0 <= i < |w| ==> w[i] !in Whitespace
    ensures Words(Join(parts, " ")) == parts
    decreases |parts|
  {
    if |parts| == 1 {
      FieldsWord(parts[0], Whitespace);
    } else if |parts| > 1 {
      var tail := Join(parts[1..], " ");
      assert Join(parts, " ") == parts[0] + [' '] + tail;
      FieldsCons(parts[0], ' ', tail, Whitespace);
      WordsJoin(parts[1..]);
      var fs := [parts[0]] + Fields(tail, Whitespace);
      assert fs[1..] == Fields(tail, Whitespace);
    }
  }

  /** Python `s.replace(pat, rep)`: left-to-right, non-overlapping occurrences. */
  function Replace(s: string, pat: string, rep: string): string
    requires pat != []
    decreases |s|
  {
    if |s| < |pat| then s
    else if s[..|pat|] == pat then rep + Replace(s[|pat|..], pat, rep)
    else [s[0]] + Replace(s[1..], pat, rep)
  }

  /** A text in which the pattern does not occur is left as it is. */
  lemma {:induction false} ReplaceAbsent(s: string, pat: string, rep: string)
    requires pat != [] && !Contains(s, pat)
    ensures Replace(s, pat, rep) == s
    decreases |s|
  {
    if |s| >= |pat| {
      assert s[..|pat|] != pat;
      ReplaceAbsent(s[1..], pat, rep);
    }
  }

  /** Replacing a character by a non-empty text empties nothing. */
  lemma {:induction false} ReplaceKeepsEmptiness(s: string, c: char, rep: string)
    requires rep != []
    ensures |Replace(s, [c], rep)| == 0 <==> |s| == 0
  {
    if |s| >= 1 {
      if s[..1] == [c] {
        assert |rep + Replace(s[1..], [c], rep)| >= |rep|;
      } else {
        assert |[s[0]] + Replace(s[1..], [c], rep)| >= 1;
      }
    }
  }

  /** Replacing a single character by text that does not contain it removes
      every occurrence, and every other character survives. */
  lemma {:induction false} ReplaceCharRemoves(s: string, c: char, rep: string, d: char)
    requires c !in rep && d != c
    ensures c !in Replace(s, [c], rep)
    ensures d in s && d !in rep ==> d in Replace(s, [c], rep)
    ensures d in Replace(s, [c], rep) ==> d in s || d in rep
    decreases |s|
  {
    if s != [] {
      ReplaceCharRemoves(s[1..], c, rep, d);
      if s[0] != c {
        assert s[..1] != [c];
        assert d in s ==> d == s[0] || d in s[1..];
      } else {
        assert s[..1] == [c];
        assert d in s ==> d in s[1..];
      }
    }
  }

  /** Python `s.lower()` for the ASCII letters. */
  function LowerChar(c: char): char {
    if 'A' <= c <= 'Z' then (c as int + 32) as char else c
  }

  function Lower(s: string): (r: string)
    ensures |r| == |s| && forall i :: 0 <= i < |s| ==> r[i] == LowerChar(s[i])
    decreases |s|
  {
    if s == [] then [] else [LowerChar(s[0])] + Lower(s[1..])
  }

  /** Python slicing `s[start:stop]`: negative bounds count from the end, bounds
      are clamped, and an empty range gives "". */
  function PySlice(s: string, start: int, stop: int): (r: string)
    ensures |r| <= |s|
  {
    var lo := Clamp(if start < 0 then start + |s| else start, |s|);
    var hi := Clamp(if stop < 0 then stop + |s| else stop, |s|);
    if lo < hi then s[lo..hi] else []
  }

  function Clamp(i: int, n: nat): (r: nat)
    ensures r <= n
  {
    if i < 0 then 0 else if i > n then n else i
  }

  /** Python `str(n)` for a natural number. */
  function NatToDecimal(n: nat): (r: string)
    ensures r != [] && forall i :: 0 <= i < |r| ==> '0' <= r[i] <= '9'
    decreases n
  {
    if n < 10 then [DigitChar(n)] else NatToDecimal(n / 10) + [DigitChar(n % 10)]
  }

  function DigitChar(d: nat): (c: char)
    requires d < 10
    ensures '0' <= c <= '9'
  {
    ('0' as int + d) as char
  }

  /** The value of a string of decimal digits. */
  function DecimalValue(s: string): nat
    requires forall i :: 0 <= i < |s| ==> '0' <= s[i] <= '9'
    decreases |s|
  {
    if s == [] then 0 else DecimalValue(s[..|s| - 1]) * 10 + (s[|s| - 1] as int - '0' as int)
  }

  /** Formatting a number and reading it back gives the number. */
  lemma {:induction false} DecimalRoundTrip(n: nat)
    ensures DecimalValue(NatToDecimal(n)) == n
    decreases n
  {
    if n >= 10 {
      DecimalRoundTrip(n / 10);
      var r := NatToDecimal(n);
      assert r[..|r| - 1] == NatToDecimal(n / 10);
    }
  }

  /** Python `str(i)` for any integer. */
  function IntToDecimal(i: int): (r: string)
    ensures r != []
    ensures i >= 0 ==> r == NatToDecimal(i)
    ensures i < 0 ==> r == "-" + NatToDecimal(-i)
  {
    if i < 0 then "-" + NatToDecimal(-i) else NatToDecimal(i)
  }
}
