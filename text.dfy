/**
 * Python string and list primitives the core uses (`str.split` on one character,
 * `str.join`, `list.index`, `str.lower`), plus the readers that take the tool's
 * generated text apart again so that properties of that text can be stated.
 */
module Text {

  /** `sep.join(parts)`. */
  function Join(parts: seq<string>, sep: string): string
  {
    if |parts| == 0 then ""
    else if |parts| == 1 then parts[0]
    else parts[0] + sep + Join(parts[1..], sep)
  }

  /**
   * `s.split(sep)` for a one-character separator: every occurrence of `sep` cuts, so
   * empty pieces are kept and the empty string gives `[""]`.
   */
  function Split(s: string, sep: char): (r: seq<string>)
    ensures |r| >= 1
    ensures forall k :: 0 <= k < |r| ==> sep !in r[k]
    decreases |s|
  {
    if s == [] then [""]
    else
      var rest := Split(s[1..], sep);
      if s[0] == sep then [""] + rest else [[s[0]] + rest[0]] + rest[1..]
  }

  /** Joining the pieces with the separator gives the string back. */
  lemma {:induction false} JoinSplit(s: string, sep: char)
    ensures Join(Split(s, sep), [sep]) == s
    decreases |s|
  {
    if s != [] {
      var rest := Split(s[1..], sep);
      JoinSplit(s[1..], sep);
      if s[0] == sep {
        assert ([""] + rest)[1..] == rest;
      } else {
        JoinExtendFirst(s[0], rest, [sep]);
      }
      assert s == [s[0]] + s[1..];
    }
  }

  /** Lengthening the first part lengthens the joined string by the same prefix. */
  lemma JoinExtendFirst(c: char, parts: seq<string>, sep: string)
    requires |parts| >= 1
    ensures Join([[c] + parts[0]] + parts[1..], sep) == [c] + Join(parts, sep)
  {
    var r := [[c] + parts[0]] + parts[1..];
    assert r[0] == [c] + parts[0];
    assert r[1..] == parts[1..];
    if |parts| > 1 {
      assert Join(r, sep) == r[0] + sep + Join(parts[1..], sep);
      assert Join(parts, sep) == parts[0] + sep + Join(parts[1..], sep);
    }
  }

  /** Cutting at a separator between `a` and `b` splits `a` and `b` independently. */
  lemma {:induction false} SplitConcat(a: string, b: string, sep: char)
    ensures Split(a + [sep] + b, sep) == Split(a, sep) + Split(b, sep)
    decreases |a|
  {
    if a == [] {
      assert a + [sep] + b == [sep] + b;
      assert ([sep] + b)[1..] == b;
    } else {
      assert (a + [sep] + b)[1..] == a[1..] + [sep] + b;
      SplitConcat(a[1..], b, sep);
    }
  }

  /** A separator-free prefix just lengthens the first piece. */
  lemma {:induction false} SplitPrefix(pad: string, s: string, sep: char)
    requires sep !in pad
    ensures Split(pad + s, sep) == [pad + Split(s, sep)[0]] + Split(s, sep)[1..]
    decreases |pad|
  {
    if pad == [] {
      var r := Split(s, sep);
      assert pad + s == s;
      assert pad + r[0] == r[0];
      assert [r[0]] + r[1..] == r;
    } else {
      assert (pad + s)[1..] == pad[1..] + s;
      assert pad[0] != sep;
      SplitPrefix(pad[1..], s, sep);
      assert [pad[0]] + (pad[1..] + Split(s, sep)[0]) == pad + Split(s, sep)[0];
    }
  }

  /** A string without the separator is one piece. */
  lemma SplitNoSep(s: string, sep: char)
    requires sep !in s
    ensures Split(s, sep) == [s]
  {
    SplitPrefix(s, "", sep);
    assert s + "" == s;
  }

  /** `[pad + x for x in xs]`. */
  function Prefixed(pad: string, xs: seq<string>): (r: seq<string>)
    ensures |r| == |xs|
  {
    if xs == [] then [] else [pad + xs[0]] + Prefixed(pad, xs[1..])
  }

  /**
   * Joining separator-free pieces with `sep` followed by a padding, then splitting at
   * `sep`, gives back the pieces, each but the first behind the padding.
   */
  lemma {:induction false} SplitJoinPadded(xs: seq<string>, sep: char, pad: string)
    requires |xs| >= 1
    requires sep !in pad
    requires forall k :: 0 <= k < |xs| ==> sep !in xs[k]
    ensures Split(Join(xs, [sep] + pad), sep) == [xs[0]] + Prefixed(pad, xs[1..])
    decreases |xs|
  {
    if |xs| == 1 {
      SplitNoSep(xs[0], sep);
    } else {
      var tail := Join(xs[1..], [sep] + pad);
      assert Join(xs, [sep] + pad) == xs[0] + [sep] + (pad + tail);
      SplitConcat(xs[0], pad + tail, sep);
      SplitNoSep(xs[0], sep);
      SplitPrefix(pad, tail, sep);
      SplitJoinPadded(xs[1..], sep, pad);
      assert xs[1..][1..] == xs[2..];
    }
  }

  /** `sep.join` and `split(sep)` are inverse on separator-free pieces. */
  lemma SplitJoin(xs: seq<string>, sep: char)
    requires |xs| >= 1
    requires forall k :: 0 <= k < |xs| ==> sep !in xs[k]
    ensures Split(Join(xs, [sep]), sep) == xs
  {
    SplitJoinPadded(xs, sep, "");
    assert [sep] + "" == [sep];
    PrefixedEmpty(xs[1..]);
  }

  lemma {:induction false} PrefixedEmpty(xs: seq<string>)
    ensures Prefixed("", xs) == xs
    decreases |xs|
  {
    if xs != [] {
      PrefixedEmpty(xs[1..]);
      assert "" + xs[0] == xs[0];
      assert xs == [xs[0]] + xs[1..];
    }
  }

  /** `xs.index(x)`: the position of the first occurrence (the caller has ruled out `ValueError`). */
  function IndexOf(xs: seq<string>, x: string): (k: nat)
    requires x in xs
    ensures k < |xs| && xs[k] == x
    ensures x !in xs[..k]
  {
    if xs[0] == x then 0
    else
      assert x in xs[1..] by { assert xs == [xs[0]] + xs[1..]; }
      var k := IndexOf(xs[1..], x);
      assert xs[..k + 1] == [xs[0]] + xs[1..][..k];
      k + 1
  }

  /** `str.lower` on one character, for the ASCII letters. */
  function LowerChar(c: char): char
  {
    if 'A' <= c <= 'Z' then (c as int - 'A' as int + 'a' as int) as char else c
  }

  function Lower(s: string): (r: string)
    ensures |r| == |s|
    ensures forall k :: 0 <= k < |s| ==> r[k] == LowerChar(s[k])
  {
    if s == [] then [] else [LowerChar(s[0])] + Lower(s[1..])
  }

  predicate IsSpace(c: char) { c == ' ' || c == '\n' }

  /** Drops leading blanks and line breaks. */
  function LStrip(s: string): (r: string)
    ensures r == [] || !IsSpace(r[0])
    decreases |s|
  {
    if s != [] && IsSpace(s[0]) then LStrip(s[1..]) else s
  }

  lemma {:induction false} LStripPadding(pad: string, x: string)
    requires forall k :: 0 <= k < |pad| ==> IsSpace(pad[k])
    requires x == [] || !IsSpace(x[0])
    ensures LStrip(pad + x) == x
    decreases |pad|
  {
    if pad != [] {
      assert (pad + x)[1..] == pad[1..] + x;
      LStripPadding(pad[1..], x);
    } else {
      assert pad + x == x;
    }
  }

  /** `[s.lstrip() for s in xs]`. */
  function LStripAll(xs: seq<string>): (r: seq<string>)
    ensures |r| == |xs|
  {
    if xs == [] then [] else [LStrip(xs[0])] + LStripAll(xs[1..])
  }

  /** The elements at odd positions: `xs[1::2]`. */
  function Odds<T>(xs: seq<T>): seq<T>
    decreases |xs|
  {
    if |xs| < 2 then [] else [xs[1]] + Odds(xs[2..])
  }

  /** `[xs[0], filler, xs[1], filler, …, xs[n-1]]`. */
  function Interleave(xs: seq<string>, filler: string): seq<string>
  {
    if |xs| <= 1 then xs else [xs[0], filler] + Interleave(xs[1..], filler)
  }

  /** Between one leading and one trailing piece, the odd positions hold the interleaved items. */
  lemma {:induction false} OddsInterleave(first: string, xs: seq<string>, filler: string, last: string)
    requires |xs| >= 1
    ensures Odds([first] + Interleave(xs, filler) + [last]) == xs
    decreases |xs|
  {
    if |xs| == 1 {
      assert [first] + Interleave(xs, filler) + [last] == [first, xs[0], last];
      assert [first, xs[0], last][2..] == [last];
    } else {
      var p := [first] + Interleave(xs, filler) + [last];
      assert p == [first, xs[0]] + ([filler] + Interleave(xs[1..], filler) + [last]);
      assert p[2..] == [filler] + Interleave(xs[1..], filler) + [last];
      OddsInterleave(filler, xs[1..], filler, last);
      assert xs == [xs[0]] + xs[1..];
    }
  }

  /** Quote-free items joined by `'", "'` split at `"` into the items and the `, ` between them. */
  lemma {:induction false} SplitQuotedJoin(xs: seq<string>)
    requires |xs| >= 1
    requires forall k :: 0 <= k < |xs| ==> '"' !in xs[k]
    ensures Split(Join(xs, "\", \""), '"') == Interleave(xs, ", ")
    decreases |xs|
  {
    if |xs| == 1 {
      SplitNoSep(xs[0], '"');
    } else {
      var tail := Join(xs[1..], "\", \"");
      assert Join(xs, "\", \"") == xs[0] + ['"'] + (", " + ['"'] + tail);
      SplitTwoLeading(xs[0], ", ", tail, '"');
      SplitQuotedJoin(xs[1..]);
      assert Interleave(xs, ", ") == [xs[0], ", "] + Interleave(xs[1..], ", ");
    }
  }

  /** Two separator-free pieces in front, each closed by the separator, come off whole. */
  lemma SplitTwoLeading(a: string, b: string, c: string, sep: char)
    requires sep !in a && sep !in b
    ensures Split(a + [sep] + (b + [sep] + c), sep) == [a, b] + Split(c, sep)
  {
    SplitConcat(a, b + [sep] + c, sep);
    SplitConcat(b, c, sep);
    SplitNoSep(a, sep);
    SplitNoSep(b, sep);
  }

  /** Reads a separated list back: split at `sep`, then drop the blanks that follow each separator. */
  function Fields(s: string, sep: char): (r: seq<string>)
    ensures |r| >= 1
  {
    LStripAll(Split(s, sep))
  }

  lemma {:induction false} LStripAllAppend(x: seq<string>, y: seq<string>)
    ensures LStripAll(x + y) == LStripAll(x) + LStripAll(y)
    decreases |x|
  {
    if x != [] {
      assert (x + y)[1..] == x[1..] + y;
      LStripAllAppend(x[1..], y);
    } else {
      assert x + y == y;
    }
  }

  /** Two cuts read back as the three parts read back one after the other. */
  lemma FieldsThree(a: string, b: string, c: string, sep: char)
    ensures Fields(a + [sep] + (b + [sep] + c), sep) == Fields(a, sep) + Fields(b, sep) + Fields(c, sep)
  {
    FieldsConcat(a, b + [sep] + c, sep);
    FieldsConcat(b, c, sep);
  }

  /** Reading back is compositional at a separator. */
  lemma FieldsConcat(a: string, b: string, sep: char)
    ensures Fields(a + [sep] + b, sep) == Fields(a, sep) + Fields(b, sep)
  {
    SplitConcat(a, b, sep);
    LStripAllAppend(Split(a, sep), Split(b, sep));
  }

  predicate AllSpace(s: string) { forall k :: 0 <= k < |s| ==> IsSpace(s[k]) }

  /** An item the reader gives back unchanged: no separator in it and no blank in front. */
  predicate Bare(x: string, sep: char) { sep !in x && (x == [] || !IsSpace(x[0])) }

  lemma {:induction false} LStripAllPrefixed(pad: string, xs: seq<string>)
    requires AllSpace(pad)
    requires forall k :: 0 <= k < |xs| ==> xs[k] == [] || !IsSpace(xs[k][0])
    ensures LStripAll(Prefixed(pad, xs)) == xs
    decreases |xs|
  {
    if xs != [] {
      LStripPadding(pad, xs[0]);
      LStripAllPrefixed(pad, xs[1..]);
      assert Prefixed(pad, xs) == [pad + xs[0]] + Prefixed(pad, xs[1..]);
      LStripAllAppend([pad + xs[0]], Prefixed(pad, xs[1..]));
    }
  }

  lemma SplitLeadJoin(lead: string, xs: seq<string>, sep: char, pad: string)
    requires |xs| >= 1
    requires sep !in lead && sep !in pad
    requires forall k :: 0 <= k < |xs| ==> sep !in xs[k]
    ensures Split(lead + Join(xs, [sep] + pad), sep) == [lead + xs[0]] + Prefixed(pad, xs[1..])
  {
    SplitJoinPadded(xs, sep, pad);
    SplitPrefix(lead, Join(xs, [sep] + pad), sep);
  }

  lemma StripLeadPrefixed(lead: string, xs: seq<string>, pad: string)
    requires |xs| >= 1
    requires AllSpace(lead) && AllSpace(pad)
    requires forall k :: 0 <= k < |xs| ==> xs[k] == [] || !IsSpace(xs[k][0])
    ensures LStripAll([lead + xs[0]] + Prefixed(pad, xs[1..])) == xs
  {
    LStripPadding(lead, xs[0]);
    LStripAllPrefixed(pad, xs[1..]);
    LStripAllAppend([lead + xs[0]], Prefixed(pad, xs[1..]));
    assert xs == [xs[0]] + xs[1..];
  }

  /**
   * Items joined by `sep` followed by a blank padding, behind a blank lead, read back
   * as the items themselves.
   */
  lemma FieldsJoin(lead: string, xs: seq<string>, sep: char, pad: string)
    requires |xs| >= 1
    requires AllSpace(lead) && AllSpace(pad) && sep !in lead && sep !in pad
    requires forall k :: 0 <= k < |xs| ==> Bare(xs[k], sep)
    ensures Fields(lead + Join(xs, [sep] + pad), sep) == xs
  {
    SplitLeadJoin(lead, xs, sep, pad);
    StripLeadPrefixed(lead, xs, pad);
  }

  /** A blank-only text reads back as one empty item. */
  lemma FieldsBlank(lead: string, sep: char)
    requires AllSpace(lead) && sep !in lead
    ensures Fields(lead, sep) == [""]
  {
    SplitNoSep(lead, sep);
    LStripPadding(lead, "");
    assert lead + "" == lead;
  }

  /** A character in neither the items nor the separator is not in their join. */
  lemma {:induction false} JoinExcludes(xs: seq<string>, sep: string, c: char)
    requires c !in sep
    requires forall k :: 0 <= k < |xs| ==> c !in xs[k]
    ensures c !in Join(xs, sep)
    decreases |xs|
  {
    if |xs| > 1 {
      JoinExcludes(xs[1..], sep, c);
      var rest := Join(xs[1..], sep);
      assert Join(xs, sep) == xs[0] + sep + rest;
      forall i | 0 <= i < |Join(xs, sep)| ensures Join(xs, sep)[i] != c {
        if i < |xs[0]| { assert Join(xs, sep)[i] == xs[0][i]; }
        else if i < |xs[0]| + |sep| { assert Join(xs, sep)[i] == sep[i - |xs[0]|]; }
        else { assert Join(xs, sep)[i] == rest[i - |xs[0]| - |sep|]; }
      }
    }
  }
}
