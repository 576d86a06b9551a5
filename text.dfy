/** Answer text: the JavaScript `||` idiom on possibly-missing strings and the
    answer normaliser `normalize` of the quiz (trim, lower-case, collapse runs
    of white space into one space). Characters are treated as ASCII: the
    white-space set and the case mapping are those of the ASCII range. */
module Text {

  datatype Option<T> = None | Some(value: T)

  /** JavaScript truthiness of a string-or-undefined: only a present, non-empty
      string is truthy. */
  predicate Truthy(s: Option<string>)
  {
    s.Some? && s.value != ""
  }

  /** `a || b` on strings-or-undefined. */
  function Or(a: Option<string>, b: Option<string>): (r: Option<string>)
  {
    if Truthy(a) then a else b
  }

  /** `a || ""`: a missing or empty string becomes "". */
  function OrEmpty(a: Option<string>): (r: string)
  {
    if Truthy(a) then a.value else ""
  }

  /** The characters matched by `\s` and removed by `trim`, restricted to ASCII:
      the space and the control characters tab, line feed, vertical tab, form
      feed and carriage return (codes 9 to 13). */
  predicate IsSpace(c: char)
  {
    c == ' ' || '\t' <= c <= '\r'
  }

  /** Nothing but white space (or nothing at all). */
  ghost predicate Blank(s: string)
  {
    forall i :: 0 <= i < |s| ==> IsSpace(s[i])
  }

  predicate IsUpper(c: char)
  {
    'A' <= c <= 'Z'
  }

  function LowerChar(c: char): (d: char)
    ensures !IsUpper(d)
    ensures IsSpace(d) <==> IsSpace(c)
    ensures !IsUpper(c) ==> d == c
  {
    if IsUpper(c) then (c as int + 32) as char else c
  }

  /** `toLowerCase`. */
  function Lower(s: string): (r: string)
    ensures |r| == |s|
    ensures forall i :: 0 <= i < |s| ==> r[i] == LowerChar(s[i])
  {
    seq(|s|, i requires 0 <= i < |s| => LowerChar(s[i]))
  }

  /** The length of the leading run of white space. */
  function LeadingSpaces(s: string): (n: nat)
    ensures n <= |s|
    ensures n < |s| ==> !IsSpace(s[n])
    ensures Blank(s[..n])
  {
    if s != [] && IsSpace(s[0]) then
      var m := LeadingSpaces(s[1..]);
      assert s[..m + 1] == [s[0]] + s[1..][..m];
      m + 1
    else 0
  }

  /** The length of the trailing run of white space. */
  function TrailingSpaces(s: string): (n: nat)
    ensures n <= |s|
    ensures n < |s| ==> !IsSpace(s[|s| - 1 - n])
    ensures Blank(s[|s| - n..])
  {
    if s != [] && IsSpace(s[|s| - 1]) then
      var m := TrailingSpaces(s[..|s| - 1]);
      assert s[|s| - (m + 1)..] == s[..|s| - 1][|s| - 1 - m..] + [s[|s| - 1]];
      m + 1
    else 0
  }

  /** Drops the leading run of white space. */
  function TrimStart(s: string): (r: string)
  {
    s[LeadingSpaces(s)..]
  }

  /** Drops the trailing run of white space. */
  function TrimEnd(s: string): (r: string)
  {
    s[..|s| - TrailingSpaces(s)]
  }

  /** `trim`. */
  function Trim(s: string): string
  {
    TrimEnd(TrimStart(s))
  }

  /** `replace(/\s+/g, " ")`: every maximal run of white space becomes one space. */
  function Collapse(s: string): (r: string)
    decreases |s|
  {
    if s == [] then []
    else if IsSpace(s[0]) then [' '] + Collapse(TrimStart(s))
    else [s[0]] + Collapse(s[1..])
  }

  /** `normalize(s)`: `(s || "").trim().toLowerCase().replace(/\s+/g, " ")`;
      a missing string is normalised as "". */
  function Normalize(s: Option<string>): (r: string)
    ensures !Truthy(s) ==> r == ""
    decreases if s.None? then 1 else 0
  {
    if s.None? then Normalize(Some("")) else Collapse(Lower(Trim(s.value)))
  }

  /** White space inside the string is single spaces, never two in a row. */
  ghost predicate Collapsed(t: string)
  {
    && (forall i :: 0 <= i < |t| && IsSpace(t[i]) ==> t[i] == ' ')
    && (forall i :: 0 <= i < |t| - 1 ==> !(IsSpace(t[i]) && IsSpace(t[i + 1])))
  }

  /** The shape of a normalised answer: no white space at either end, collapsed
      white space inside, and no upper-case letter. */
  ghost predicate IsNormal(t: string)
  {
    && (t != [] ==> !IsSpace(t[0]) && !IsSpace(t[|t| - 1]))
    && Collapsed(t)
    && (forall i :: 0 <= i < |t| ==> !IsUpper(t[i]))
  }

  /** Every character `Collapse` produces is a space or a character of its input,
      and it produces nothing only from nothing. */
  lemma {:induction false} CollapseChars(s: string)
    ensures (Collapse(s) == []) <==> (s == [])
    ensures forall i :: 0 <= i < |Collapse(s)| ==>
      Collapse(s)[i] == ' ' || (Collapse(s)[i] in s && !IsSpace(Collapse(s)[i]))
    decreases |s|
  {
    if s != [] {
      var t := if IsSpace(s[0]) then TrimStart(s) else s[1..];
      CollapseChars(t);
      var c := Collapse(t);
      assert Collapse(s) == [if IsSpace(s[0]) then ' ' else s[0]] + c;
      forall i | 0 <= i < |c| && c[i] != ' ' ensures c[i] in s {
        assert c[i] in t;
      }
    }
  }

  /** `Collapse` output begins and ends with white space exactly when its input does. */
  lemma {:induction false} CollapseEnds(s: string)
    requires s != []
    ensures Collapse(s) != []
    ensures IsSpace(Collapse(s)[0]) <==> IsSpace(s[0])
    ensures IsSpace(Collapse(s)[|Collapse(s)| - 1]) <==> IsSpace(s[|s| - 1])
    decreases |s|
  {
    var t := if IsSpace(s[0]) then TrimStart(s) else s[1..];
    var c := Collapse(t);
    assert Collapse(s) == [if IsSpace(s[0]) then ' ' else s[0]] + c;
    if t != [] {
      CollapseEnds(t);
      assert t[|t| - 1] == s[|s| - 1];
    } else {
      assert IsSpace(s[|s| - 1]) <==> IsSpace(s[0]);
    }
  }

  /** `Collapse` never puts two white-space characters side by side. */
  lemma {:induction false} CollapseNoDoubleSpace(s: string)
    ensures forall i :: 0 <= i < |Collapse(s)| - 1 ==>
      !(IsSpace(Collapse(s)[i]) && IsSpace(Collapse(s)[i + 1]))
    decreases |s|
  {
    if s != [] {
      var t := if IsSpace(s[0]) then TrimStart(s) else s[1..];
      CollapseNoDoubleSpace(t);
      var c := Collapse(t);
      var r := Collapse(s);
      assert r == [if IsSpace(s[0]) then ' ' else s[0]] + c;
      if IsSpace(s[0]) && t != [] {
        CollapseEnds(t);
        assert !IsSpace(c[0]);
      }
      forall i | 0 <= i < |r| - 1 ensures !(IsSpace(r[i]) && IsSpace(r[i + 1])) {
        if i > 0 {
          assert r[i] == c[i - 1] && r[i + 1] == c[i];
        } else {
          assert r[1] == c[0];
        }
      }
    }
  }

  /** `Collapse` output is collapsed. */
  lemma CollapseCollapsed(s: string)
    ensures Collapsed(Collapse(s))
  {
    CollapseChars(s);
    CollapseNoDoubleSpace(s);
  }

  /** `trim` leaves no white space at either end. */
  lemma TrimEnds(a: string)
    ensures Trim(a) != [] ==> !IsSpace(Trim(a)[0]) && !IsSpace(Trim(a)[|Trim(a)| - 1])
  {
    var h := TrimStart(a);
    var t := TrimEnd(h);
    if t != [] {
      assert t[0] == h[0];
    }
  }

  /** `normalize` always yields a normal string. */
  lemma NormalizeIsNormal(s: Option<string>)
    ensures IsNormal(Normalize(s))
  {
    var t := Trim(OrEmpty(s));
    TrimEnds(OrEmpty(s));
    var u := Lower(t);
    assert u != [] ==> u[0] == LowerChar(t[0]) && u[|u| - 1] == LowerChar(t[|t| - 1]);
    var r := Collapse(u);
    assert r == Normalize(s);
    CollapseChars(u);
    CollapseCollapsed(u);
    if u != [] {
      CollapseEnds(u);
    }
    forall i | 0 <= i < |r| ensures !IsUpper(r[i]) {
      if r[i] != ' ' {
        var j :| 0 <= j < |u| && u[j] == r[i];
      }
    }
  }

  /** A collapsed string is left unchanged by `Collapse`. */
  lemma {:induction false} CollapseFixes(t: string)
    requires Collapsed(t)
    ensures Collapse(t) == t
    decreases |t|
  {
    if t != [] {
      assert Collapsed(t[1..]) by {
        var u := t[1..];
        forall i | 0 <= i < |u| - 1 ensures !(IsSpace(u[i]) && IsSpace(u[i + 1])) {
          assert u[i] == t[i + 1] && u[i + 1] == t[i + 2];
        }
      }
      if IsSpace(t[0]) {
        assert t[0] == ' ';
        assert TrimStart(t) == t[1..] by {
          if |t| > 1 {
            assert !IsSpace(t[1]);
          }
        }
      }
      CollapseFixes(t[1..]);
      assert t == [t[0]] + t[1..];
    }
  }

  /** A normal string is its own normal form. */
  lemma NormalizeFixesNormal(t: string)
    requires IsNormal(t)
    ensures Normalize(Some(t)) == t
  {
    if t != [] {
      assert TrimStart(t) == t;
      assert TrimEnd(t) == t;
    }
    assert Lower(t) == t;
    CollapseFixes(t);
  }

  /** Normalisation is idempotent. */
  lemma NormalizeIdempotent(s: Option<string>)
    ensures Normalize(Some(Normalize(s))) == Normalize(s)
  {
    NormalizeIsNormal(s);
    NormalizeFixesNormal(Normalize(s));
  }

  /** An answer normalises to "" exactly when it is missing or blank. */
  lemma NormalizeEmptyIff(s: Option<string>)
    ensures Normalize(s) == "" <==> Blank(OrEmpty(s))
  {
    var a := OrEmpty(s);
    var h := TrimStart(a);
    var t := TrimEnd(h);
    CollapseChars(Lower(t));
    assert a == a[..|a| - |h|] + h;
    if t != [] {
      assert h != [] && !IsSpace(h[0]);
      assert h[0] == a[|a| - |h|];
    } else {
      assert a[..|a| - |h|] == a;
    }
  }

  /** Blankness of a concatenation is blankness of both parts. */
  lemma BlankAppend(a: string, b: string)
    ensures Blank(a + b) <==> Blank(a) && Blank(b)
  {
    if Blank(a) && Blank(b) {
      forall i | 0 <= i < |a + b| ensures IsSpace((a + b)[i]) {
        if i >= |a| {
          assert (a + b)[i] == b[i - |a|];
        }
      }
    }
    if Blank(a + b) {
      forall i | 0 <= i < |a| ensures IsSpace(a[i]) {
        assert (a + b)[i] == a[i];
      }
      forall i | 0 <= i < |b| ensures IsSpace(b[i]) {
        assert (a + b)[|a| + i] == b[i];
      }
    }
  }

  lemma BlankPrefix(s: string, n: nat)
    requires n <= |s| && Blank(s[..n])
    ensures forall i :: 0 <= i < n ==> IsSpace(s[i])
  {
    forall i | 0 <= i < n ensures IsSpace(s[i]) {
      assert s[..n][i] == s[i];
    }
  }

  lemma BlankSuffix(s: string, n: nat)
    requires n <= |s| && Blank(s[|s| - n..])
    ensures forall i :: |s| - n <= i < |s| ==> IsSpace(s[i])
  {
    forall i | |s| - n <= i < |s| ensures IsSpace(s[i]) {
      assert s[|s| - n..][i - (|s| - n)] == s[i];
    }
  }

  /** `LeadingSpaces` is fixed by its contract: the one blank prefix followed
      by a non-space or the end. */
  lemma LeadingSpacesUnique(s: string, n: nat)
    requires n <= |s| && (n < |s| ==> !IsSpace(s[n])) && Blank(s[..n])
    ensures LeadingSpaces(s) == n
  {
    BlankPrefix(s, n);
    BlankPrefix(s, LeadingSpaces(s));
  }

  /** `TrailingSpaces` is fixed by its contract in the same way. */
  lemma TrailingSpacesUnique(s: string, n: nat)
    requires n <= |s| && (n < |s| ==> !IsSpace(s[|s| - 1 - n])) && Blank(s[|s| - n..])
    ensures TrailingSpaces(s) == n
  {
    BlankSuffix(s, n);
    BlankSuffix(s, TrailingSpaces(s));
  }

  /** Past a blank first part, `trimStart` trims the second. */
  lemma TrimStartBlankAppend(x: string, r: string)
    requires Blank(x)
    ensures TrimStart(x + r) == TrimStart(r)
  {
    var xr := x + r;
    var l := LeadingSpaces(r);
    assert xr[..|x| + l] == x + r[..l];
    BlankAppend(x, r[..l]);
    if |x| + l < |xr| {
      assert xr[|x| + l] == r[l];
    }
    LeadingSpacesUnique(xr, |x| + l);
    assert xr[|x| + l..] == r[l..];
  }

  /** A string that is not all white space has a visible first character
      after its leading run. */
  lemma LeadingSpacesVisible(x: string)
    requires !Blank(x)
    ensures LeadingSpaces(x) < |x|
  {
    assert x[..|x|] == x;
  }

  /** The leading run of `x + r` is that of `x` when `x` is not blank. */
  lemma LeadingSpacesAppend(x: string, r: string)
    requires LeadingSpaces(x) < |x|
    ensures LeadingSpaces(x + r) == LeadingSpaces(x)
  {
    var xr := x + r;
    var l := LeadingSpaces(x);
    assert xr[..l] == x[..l];
    LeadingSpacesUnique(xr, l);
  }

  /** After a part that is not blank, `trimStart` trims only that part. */
  lemma TrimStartVisibleAppend(x: string, r: string)
    requires !Blank(x)
    ensures TrimStart(x + r) == TrimStart(x) + r
  {
    LeadingSpacesVisible(x);
    LeadingSpacesAppend(x, r);
    assert (x + r)[LeadingSpaces(x)..] == x[LeadingSpaces(x)..] + r;
  }

  /** Before a blank last part, `trimEnd` trims the first. */
  lemma TrimEndBlankAppend(r: string, x: string)
    requires Blank(x)
    ensures TrimEnd(r + x) == TrimEnd(r)
  {
    var rx := r + x;
    var t := TrailingSpaces(r);
    assert rx[|rx| - (|x| + t)..] == r[|r| - t..] + x;
    BlankAppend(r[|r| - t..], x);
    if |x| + t < |rx| {
      assert rx[|rx| - 1 - (|x| + t)] == r[|r| - 1 - t];
    }
    TrailingSpacesUnique(rx, |x| + t);
    assert rx[..|rx| - (|x| + t)] == r[..|r| - t];
  }

  /** A last part with a visible character keeps the first part whole. */
  lemma TrimEndVisibleAppend(r: string, x: string)
    requires !Blank(x)
    ensures TrimEnd(r + x) == r + TrimEnd(x)
  {
    var rx := r + x;
    var t := TrailingSpaces(x);
    assert x[|x| - |x|..] == x;
    assert rx[|rx| - t..] == x[|x| - t..];
    assert rx[|rx| - 1 - t] == x[|x| - 1 - t];
    TrailingSpacesUnique(rx, t);
    assert rx[..|rx| - t] == r + x[..|x| - t];
  }

  /** A blank string trims to nothing. */
  lemma TrimBlank(s: string)
    requires Blank(s)
    ensures TrimStart(s) == [] && Trim(s) == []
  {
    assert s[..|s|] == s;
    LeadingSpacesUnique(s, |s|);
  }

  /** `trim` ignores white space added at either end. */
  lemma TrimOuterSpace(w: string, t: string)
    requires Blank(w)
    ensures Trim(w + t) == Trim(t)
    ensures Trim(t + w) == Trim(t)
  {
    TrimStartBlankAppend(w, t);
    BlankAppend(t, w);
    if Blank(t) {
      TrimBlank(t);
      TrimBlank(t + w);
    } else {
      TrimStartVisibleAppend(t, w);
      TrimEndBlankAppend(TrimStart(t), w);
    }
  }

  /** With visible text on both sides, `trim` keeps whatever lies between. */
  lemma TrimAround(a: string, m: string, b: string)
    requires !Blank(a) && !Blank(b)
    ensures Trim(a + m + b) == TrimStart(a) + m + TrimEnd(b)
  {
    assert a + m + b == a + (m + b);
    TrimStartVisibleAppend(a, m + b);
    assert TrimStart(a) + (m + b) == (TrimStart(a) + m) + b;
    TrimEndVisibleAppend(TrimStart(a) + m, b);
  }

  lemma LowerAppend(a: string, b: string)
    ensures Lower(a + b) == Lower(a) + Lower(b)
  {
  }

  /** Lower-casing keeps white space where it is. */
  lemma LowerBlank(s: string)
    ensures Blank(Lower(s)) <==> Blank(s)
  {
  }

  lemma LowerSlice(s: string, i: nat, j: nat)
    requires i <= j <= |s|
    ensures Lower(s[i..j]) == Lower(s)[i..j]
  {
  }

  /** Lower-casing neither adds nor removes leading white space. */
  lemma LowerLeading(s: string)
    ensures LeadingSpaces(Lower(s)) == LeadingSpaces(s)
  {
    var u := Lower(s);
    var l := LeadingSpaces(s);
    BlankPrefix(s, l);
    forall i | 0 <= i < l ensures IsSpace(u[..l][i]) {
      assert u[..l][i] == LowerChar(s[i]);
    }
    LeadingSpacesUnique(u, l);
  }

  /** Lower-casing neither adds nor removes trailing white space. */
  lemma LowerTrailing(s: string)
    ensures TrailingSpaces(Lower(s)) == TrailingSpaces(s)
  {
    var u := Lower(s);
    var t := TrailingSpaces(s);
    var v := u[|u| - t..];
    BlankSuffix(s, t);
    forall i | 0 <= i < t ensures IsSpace(v[i]) {
      var j := |s| - t + i;
      assert IsSpace(s[j]);
      assert v[i] == u[j] == LowerChar(s[j]);
    }
    TrailingSpacesUnique(u, t);
  }

  lemma TrimStartLower(s: string)
    ensures TrimStart(Lower(s)) == Lower(TrimStart(s))
  {
    LowerLeading(s);
    LowerSlice(s, LeadingSpaces(s), |s|);
  }

  lemma TrimEndLower(s: string)
    ensures TrimEnd(Lower(s)) == Lower(TrimEnd(s))
  {
    LowerTrailing(s);
    LowerSlice(s, 0, |s| - TrailingSpaces(s));
  }

  /** `trim` and `toLowerCase` commute. */
  lemma TrimLower(s: string)
    ensures Trim(Lower(s)) == Lower(Trim(s))
  {
    TrimStartLower(s);
    TrimEndLower(TrimStart(s));
  }

  lemma LowerIdempotent(s: string)
    ensures Lower(Lower(s)) == Lower(s)
  {
  }

  /** The normal form does not depend on letter case. */
  lemma NormalizeLower(t: string)
    ensures Normalize(Some(Lower(t))) == Normalize(Some(t))
  {
    TrimLower(t);
    LowerIdempotent(Trim(t));
  }

  /** The normal form does not depend on white space added at either end. */
  lemma NormalizeOuterSpace(w: string, t: string)
    requires Blank(w)
    ensures Normalize(Some(w + t)) == Normalize(Some(t))
    ensures Normalize(Some(t + w)) == Normalize(Some(t))
  {
    TrimOuterSpace(w, t);
  }

  /** A leading run of white space collapses to one space. */
  lemma CollapseBlankHead(v: string, y: string)
    requires Blank(v) && v != []
    ensures Collapse(v + y) == [' '] + Collapse(TrimStart(y))
  {
    assert (v + y)[0] == v[0];
    TrimStartBlankAppend(v, y);
  }

  /** A visible first character is kept as it is. */
  lemma CollapseVisibleHead(x: string, z: string)
    requires x != [] && !IsSpace(x[0])
    ensures Collapse(x + z) == [x[0]] + Collapse(x[1..] + z)
  {
    assert (x + z)[0] == x[0];
    assert (x + z)[1..] == x[1..] + z;
  }

  /** Leading white space before visible text collapses to one space. */
  lemma CollapseSpaceHead(x: string, z: string)
    requires x != [] && IsSpace(x[0]) && !Blank(x)
    ensures Collapse(x + z) == [' '] + Collapse(TrimStart(x) + z)
  {
    assert (x + z)[0] == x[0];
    TrimStartVisibleAppend(x, z);
  }

  /** `Collapse` turns a run of white space into one space wherever it stands. */
  lemma {:induction false} CollapseRun(x: string, w: string, y: string)
    requires Blank(w) && w != []
    ensures Collapse(x + w + y) == Collapse(x + [' '] + y)
    decreases |x|
  {
    var sp: string := [' '];
    if Blank(x) {
      BlankAppend(x, w);
      BlankAppend(x, sp);
      CollapseBlankHead(x + w, y);
      CollapseBlankHead(x + sp, y);
    } else {
      assert x + w + y == x + (w + y) && x + sp + y == x + (sp + y);
      if !IsSpace(x[0]) {
        CollapseRun(x[1..], w, y);
        CollapseVisibleHead(x, w + y);
        CollapseVisibleHead(x, sp + y);
        assert x[1..] + (w + y) == x[1..] + w + y;
        assert x[1..] + (sp + y) == x[1..] + sp + y;
      } else {
        var x' := TrimStart(x);
        CollapseRun(x', w, y);
        CollapseSpaceHead(x, w + y);
        CollapseSpaceHead(x, sp + y);
        assert x' + (w + y) == x' + w + y && x' + (sp + y) == x' + sp + y;
      }
    }
  }

  /** Between two visible parts, a run of white space normalises as one space. */
  lemma NormalizeInnerRunVisible(a: string, w: string, b: string)
    requires !Blank(a) && !Blank(b) && Blank(w) && w != []
    ensures Normalize(Some(a + w + b)) == Normalize(Some(a + [' '] + b))
  {
    var sp: string := [' '];
    var a', b' := TrimStart(a), TrimEnd(b);
    TrimAround(a, w, b);
    TrimAround(a, sp, b);
    LowerAppend(a' + w, b');
    LowerAppend(a', w);
    LowerAppend(a' + sp, b');
    LowerAppend(a', sp);
    LowerBlank(w);
    assert Lower(sp) == sp;
    CollapseRun(Lower(a'), Lower(w), Lower(b'));
  }

  /** The normal form does not depend on how much white space separates two
      words: any run of it counts as one space. */
  lemma NormalizeInnerRun(a: string, w: string, b: string)
    requires Blank(w) && w != []
    ensures Normalize(Some(a + w + b)) == Normalize(Some(a + [' '] + b))
  {
    var sp: string := [' '];
    if Blank(a) {
      BlankAppend(a, w);
      BlankAppend(a, sp);
      TrimOuterSpace(a + w, b);
      TrimOuterSpace(a + sp, b);
    } else if Blank(b) {
      BlankAppend(w, b);
      BlankAppend(sp, b);
      assert a + w + b == a + (w + b) && a + sp + b == a + (sp + b);
      TrimOuterSpace(w + b, a);
      TrimOuterSpace(sp + b, a);
    } else {
      NormalizeInnerRunVisible(a, w, b);
    }
  }

  /** The characters of `s` that are not white space, in order. */
  function Visible(s: string): (v: string)
    ensures |v| <= |s|
  {
    if s == [] then []
    else (if IsSpace(s[0]) then [] else [s[0]]) + Visible(s[1..])
  }

  lemma {:induction false} VisibleAppend(a: string, b: string)
    ensures Visible(a + b) == Visible(a) + Visible(b)
    decreases |a|
  {
    if a != [] {
      VisibleAppend(a[1..], b);
      assert (a + b)[1..] == a[1..] + b;
    } else {
      assert a + b == b;
    }
  }

  lemma {:induction false} VisibleBlank(s: string)
    requires Blank(s)
    ensures Visible(s) == []
    decreases |s|
  {
    if s != [] {
      VisibleBlank(s[1..]);
    }
  }

  /** `trim` removes only white space. */
  lemma VisibleTrim(s: string)
    ensures Visible(TrimStart(s)) == Visible(s)
    ensures Visible(Trim(s)) == Visible(s)
  {
    var l := LeadingSpaces(s);
    assert s == s[..l] + s[l..];
    VisibleAppend(s[..l], s[l..]);
    VisibleBlank(s[..l]);
    var h := TrimStart(s);
    var k := |h| - TrailingSpaces(h);
    assert h == h[..k] + h[k..];
    VisibleAppend(h[..k], h[k..]);
    VisibleBlank(h[k..]);
  }

  /** `Collapse` keeps every character that is not white space, in order. */
  lemma {:induction false} CollapseVisible(s: string)
    ensures Visible(Collapse(s)) == Visible(s)
    decreases |s|
  {
    if s != [] {
      var t := if IsSpace(s[0]) then TrimStart(s) else s[1..];
      CollapseVisible(t);
      var c := if IsSpace(s[0]) then ' ' else s[0];
      VisibleAppend([c], Collapse(t));
      if IsSpace(s[0]) {
        VisibleTrim(s);
      }
    }
  }

  lemma {:induction false} VisibleLower(s: string)
    ensures Visible(Lower(s)) == Lower(Visible(s))
    decreases |s|
  {
    if s != [] {
      var u := Lower(s);
      var r := Visible(s[1..]);
      VisibleLower(s[1..]);
      LowerSlice(s, 1, |s|);
      assert u[1..] == Lower(s[1..]);
      var c := if IsSpace(s[0]) then [] else [s[0]];
      var d := if IsSpace(u[0]) then [] else [u[0]];
      assert Lower(c) == d;
      assert Visible(u) == d + Lower(r);
      LowerAppend(c, r);
    }
  }

  /** The normal form keeps every character of the answer that is not white
      space, in order, lower-cased. */
  lemma NormalizeVisible(s: Option<string>)
    ensures Visible(Normalize(s)) == Lower(Visible(OrEmpty(s)))
  {
    var a := OrEmpty(s);
    assert Normalize(s) == Collapse(Lower(Trim(a)));
    CollapseVisible(Lower(Trim(a)));
    VisibleLower(Trim(a));
    VisibleTrim(a);
  }
}
