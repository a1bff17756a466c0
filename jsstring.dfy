/**
 * The two JavaScript string built-ins the directory relies on:
 * `String.prototype.includes` (used by the search filter) and
 * `String.prototype.replace` with the global pattern `/\s+/g` and the
 * replacement `-` (used to derive the export file name).
 */
module JsString {

  /** `hay.includes(needle)`: `needle` is a prefix of some suffix of `hay`. */
  function Includes(hay: string, needle: string): (b: bool)
    decreases |hay|
  {
    needle <= hay || (hay != [] && Includes(hay[1..], needle))
  }

  /** Reference meaning of a substring: `needle` sits in `hay` starting at index `i`. */
  ghost predicate OccursAt(hay: string, needle: string, i: int)
  {
    0 <= i && i + |needle| <= |hay| && hay[i..i + |needle|] == needle
  }

  lemma {:induction false} IncludesIffOccurs(hay: string, needle: string)
    ensures Includes(hay, needle) <==> exists i :: OccursAt(hay, needle, i)
    decreases |hay|
  {
    if needle <= hay {
      assert OccursAt(hay, needle, 0);
    } else if hay == [] {
    } else {
      IncludesIffOccurs(hay[1..], needle);
      if Includes(hay, needle) {
        var i :| OccursAt(hay[1..], needle, i);
        assert hay[1..][i..i + |needle|] == hay[i + 1..i + 1 + |needle|];
        assert OccursAt(hay, needle, i + 1);
      }
      if j :| OccursAt(hay, needle, j) {
        if j == 0 {
          assert false;
        }
        assert hay[1..][j - 1..j - 1 + |needle|] == hay[j..j + |needle|];
        assert OccursAt(hay[1..], needle, j - 1);
      }
    }
  }

  /**
   * The characters the regular-expression class `\s` matches: ECMA-262's
   * WhiteSpace (tab, vertical tab, form feed, space, no-break space, the
   * byte order mark and the Unicode space separators) and LineTerminator
   * (line feed, carriage return, line and paragraph separator).
   */
  predicate IsWhitespace(c: char)
  {
    var n := c as int;
    || (0x09 <= n <= 0x0D) || n == 0x20 || n == 0xA0 || n == 0x1680
    || (0x2000 <= n <= 0x200A) || n == 0x2028 || n == 0x2029 || n == 0x202F
    || n == 0x205F || n == 0x3000 || n == 0xFEFF
  }

  ghost predicate NoWhitespace(s: string)
  {
    forall i :: 0 <= i < |s| ==> !IsWhitespace(s[i])
  }

  ghost predicate AllWhitespace(s: string)
  {
    forall i :: 0 <= i < |s| ==> IsWhitespace(s[i])
  }

  /** Drops the maximal run of whitespace at the front of `s`. */
  function SkipWhitespace(s: string): (r: string)
    ensures |r| <= |s|
    ensures r == [] || !IsWhitespace(r[0])
    ensures r == [] ==> AllWhitespace(s)
    ensures r != [] ==> r[|r| - 1] == s[|s| - 1]
    decreases |s|
  {
    if s != [] && IsWhitespace(s[0]) then SkipWhitespace(s[1..]) else s
  }

  /** `s.replace(/\s+/g, '-')`: every maximal run of whitespace becomes one `-`. */
  function DashWhitespaceRuns(s: string): (r: string)
    ensures |r| <= |s|
    decreases |s|
  {
    if s == [] then []
    else if IsWhitespace(s[0]) then "-" + DashWhitespaceRuns(SkipWhitespace(s[1..]))
    else [s[0]] + DashWhitespaceRuns(s[1..])
  }

  /** No whitespace survives the replacement. */
  lemma {:induction false} DashedHasNoWhitespace(s: string)
    ensures NoWhitespace(DashWhitespaceRuns(s))
    decreases |s|
  {
    if s == [] {
    } else if IsWhitespace(s[0]) {
      DashedHasNoWhitespace(SkipWhitespace(s[1..]));
    } else {
      DashedHasNoWhitespace(s[1..]);
    }
  }

  /** A string without whitespace is left as it is. */
  lemma {:induction false} DashedKeepsWhitespaceFree(s: string)
    requires NoWhitespace(s)
    ensures DashWhitespaceRuns(s) == s
    decreases |s|
  {
    if s != [] {
      assert !IsWhitespace(s[0]);
      DashedKeepsWhitespaceFree(s[1..]);
    }
  }

  lemma {:induction false} SkipAllWhitespace(w: string)
    requires AllWhitespace(w)
    ensures SkipWhitespace(w) == []
    decreases |w|
  {
    if w != [] {
      SkipAllWhitespace(w[1..]);
    }
  }

  /** One run of whitespace, however long, becomes exactly one `-`. */
  lemma DashedRun(w: string)
    requires w != [] && AllWhitespace(w)
    ensures DashWhitespaceRuns(w) == "-"
  {
    SkipAllWhitespace(w[1..]);
  }

  /** Skipping leading whitespace commutes with appending, unless the run would continue. */
  lemma {:induction false} SkipAppend(x: string, v: string)
    requires SkipWhitespace(x) != [] || v == [] || !IsWhitespace(v[0])
    ensures SkipWhitespace(x + v) == SkipWhitespace(x) + v
    decreases |x|
  {
    if x == [] {
      assert x + v == v;
    } else if IsWhitespace(x[0]) {
      assert (x + v)[1..] == x[1..] + v;
      SkipAppend(x[1..], v);
    } else {
      assert (x + v)[0] == x[0];
    }
  }

  /**
   * The replacement works piece by piece: splitting a string anywhere except
   * inside a run of whitespace splits its result the same way.
   */
  lemma {:induction false} DashedSplit(u: string, v: string)
    requires u == [] || v == [] || !IsWhitespace(u[|u| - 1]) || !IsWhitespace(v[0])
    ensures DashWhitespaceRuns(u + v) == DashWhitespaceRuns(u) + DashWhitespaceRuns(v)
    decreases |u|, 1
  {
    if u == [] {
      assert u + v == v;
    } else if !IsWhitespace(u[0]) {
      DashedSplitLetter(u, v);
    } else {
      DashedSplitRun(u, v);
    }
  }

  lemma {:induction false} DashedSplitLetter(u: string, v: string)
    requires u != [] && !IsWhitespace(u[0])
    requires v == [] || !IsWhitespace(u[|u| - 1]) || !IsWhitespace(v[0])
    ensures DashWhitespaceRuns(u + v) == DashWhitespaceRuns(u) + DashWhitespaceRuns(v)
    decreases |u|, 0
  {
    var uv := u + v;
    assert uv[0] == u[0] && uv[1..] == u[1..] + v;
    DashedSplit(u[1..], v);
  }

  lemma {:induction false} DashedSplitRun(u: string, v: string)
    requires u != [] && IsWhitespace(u[0])
    requires v == [] || !IsWhitespace(u[|u| - 1]) || !IsWhitespace(v[0])
    ensures DashWhitespaceRuns(u + v) == DashWhitespaceRuns(u) + DashWhitespaceRuns(v)
    decreases |u|, 0
  {
    var uv := u + v;
    var rest := SkipWhitespace(u[1..]);
    assert uv[0] == u[0] && uv[1..] == u[1..] + v;
    assert SkipWhitespace(uv[1..]) == rest + v by {
      if rest == [] && |u| > 1 {
        assert u[|u| - 1] == u[1..][|u| - 2];
      }
      SkipAppend(u[1..], v);
    }
    assert DashWhitespaceRuns(rest + v) == DashWhitespaceRuns(rest) + DashWhitespaceRuns(v) by {
      DashedSplit(rest, v);
    }
    assert DashWhitespaceRuns(uv) == "-" + DashWhitespaceRuns(rest + v);
    assert DashWhitespaceRuns(u) == "-" + DashWhitespaceRuns(rest);
  }
}
