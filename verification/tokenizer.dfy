/** The grade-string tokenizer of the `/analyze` handler: split the form field
    on commas, strip whitespace from every segment, drop the segments that are
    blank, and convert the remaining tokens to numbers, all or nothing. */
module Tokenizer {
  import opened Wrappers

  /** The separator between grades. */
  const Comma: char := ','

  /** The characters Python's `str.isspace()` accepts, which are the ones the
      argument-less `str.strip()` removes. */
  predicate IsWs(c: char): (b: bool)
    ensures b ==> c != Comma
    ensures c == ' ' || c == '\t' || c == '\n' || c == '\r' ==> b
  {
    var n := c as int;
    || (0x09 <= n <= 0x0D)
    || (0x1C <= n <= 0x20)
    || n == 0x85 || n == 0xA0 || n == 0x1680
    || (0x2000 <= n <= 0x200A)
    || n == 0x2028 || n == 0x2029 || n == 0x202F || n == 0x205F || n == 0x3000
  }

  predicate AllWs(s: string) {
    forall k :: 0 <= k < |s| ==> IsWs(s[k])
  }

  /** A character that contributes nothing to the grade list: a separator or whitespace. */
  predicate IsBlankOrComma(c: char) {
    c == Comma || IsWs(c)
  }

  predicate AllBlankOrComma(s: string) {
    forall k :: 0 <= k < |s| ==> IsBlankOrComma(s[k])
  }

  // ---------------------------------------------------------------------------
  // Splitting (`str.split(sep)` with an explicit separator)
  // ---------------------------------------------------------------------------

  /** No part contains the separator. */
  predicate SepFree(parts: seq<string>, sep: char) {
    forall i :: 0 <= i < |parts| ==> sep !in parts[i]
  }

  /** `sep.join(parts)`: the parts with one separator between neighbours. */
  function Join(parts: seq<string>, sep: char): string {
    if |parts| == 0 then ""
    else if |parts| == 1 then parts[0]
    else parts[0] + [sep] + Join(parts[1..], sep)
  }

  /** The parts of `[c] + t`, given the parts of `t`: a separator opens a new
      empty part, any other character extends the first part. */
  function Prepend(c: char, rest: seq<string>, sep: char): (parts: seq<string>)
    requires |rest| >= 1
    ensures |parts| >= 1
  {
    if c == sep then [""] + rest else [[c] + rest[0]] + rest[1..]
  }

  /** Prepending a character keeps the parts separator-free and joins back
      to the longer string. */
  lemma PrependJoin(c: char, rest: seq<string>, sep: char)
    requires |rest| >= 1 && SepFree(rest, sep)
    ensures SepFree(Prepend(c, rest, sep), sep)
    ensures Join(Prepend(c, rest, sep), sep) == [c] + Join(rest, sep)
  {
    if c == sep {
      PrependSeparator(rest, sep);
    } else {
      PrependOther(c, rest, sep);
    }
  }

  /** `Prepend` at a separator: a new empty first part. */
  lemma PrependSeparator(rest: seq<string>, sep: char)
    requires |rest| >= 1 && SepFree(rest, sep)
    ensures SepFree([""] + rest, sep)
    ensures Join([""] + rest, sep) == [sep] + Join(rest, sep)
  {
    var parts := [""] + rest;
    assert parts[1..] == rest;
    forall i | 0 <= i < |parts| ensures sep !in parts[i] {
      if i > 0 { assert parts[i] == rest[i - 1]; }
    }
  }

  /** `Prepend` at any other character: the first part grows by one. */
  lemma PrependOther(c: char, rest: seq<string>, sep: char)
    requires c != sep
    requires |rest| >= 1 && SepFree(rest, sep)
    ensures SepFree([[c] + rest[0]] + rest[1..], sep)
    ensures Join([[c] + rest[0]] + rest[1..], sep) == [c] + Join(rest, sep)
  {
    var first := [c] + rest[0];
    var parts := [first] + rest[1..];
    if |rest| > 1 {
      assert parts[1..] == rest[1..];
      assert Join(parts, sep) == first + [sep] + Join(rest[1..], sep);
      assert Join(rest, sep) == rest[0] + [sep] + Join(rest[1..], sep);
    }
    forall i | 0 <= i < |parts| ensures sep !in parts[i] {
      if i == 0 {
        assert sep !in rest[0];
        assert forall k :: 0 <= k < |first| ==> first[k] == (if k == 0 then c else rest[0][k - 1]);
      } else {
        assert parts[i] == rest[i];
      }
    }
  }

  /** `s.split(sep)`: the maximal separator-free pieces of `s`, in order. There
      is always at least one piece. */
  function Split(s: string, sep: char): (parts: seq<string>)
    ensures |parts| >= 1
    ensures SepFree(parts, sep)
    ensures Join(parts, sep) == s
  {
    if |s| == 0 then [""]
    else
      var rest := Split(s[1..], sep);
      PrependJoin(s[0], rest, sep);
      assert s == [s[0]] + s[1..];
      Prepend(s[0], rest, sep)
  }

  /** There is one more piece than there are separators. */
  lemma {:induction false} SplitCount(s: string, sep: char)
    ensures |Split(s, sep)| == multiset(s)[sep] + 1
    decreases |s|
  {
    if |s| > 0 {
      SplitCount(s[1..], sep);
      var rest := Split(s[1..], sep);
      assert Split(s, sep) == Prepend(s[0], rest, sep);
      assert |Split(s, sep)| == |rest| + (if s[0] == sep then 1 else 0);
      CountCons(s, sep);
    }
  }

  /** The occurrences of `c` in a non-empty string, counted from its first character. */
  lemma CountCons(s: string, c: char)
    requires |s| > 0
    ensures multiset(s)[c] == multiset(s[1..])[c] + (if s[0] == c then 1 else 0)
  {
    assert s == [s[0]] + s[1..];
    assert multiset(s) == multiset{s[0]} + multiset(s[1..]);
  }

  /** Splitting is the only separator-free decomposition that joins back to `s`. */
  lemma {:induction false} SplitUnique(parts: seq<string>, s: string, sep: char)
    requires |parts| >= 1
    requires SepFree(parts, sep)
    requires Join(parts, sep) == s
    ensures parts == Split(s, sep)
    decreases |s|
  {
    if |parts| == 1 {
      if |s| > 0 {
        assert s == [s[0]] + s[1..];
        SplitUnique([s[1..]], s[1..], sep);
      }
    } else if parts[0] == "" {
      assert s == [sep] + Join(parts[1..], sep);
      assert s[1..] == Join(parts[1..], sep);
      SplitUnique(parts[1..], s[1..], sep);
    } else {
      var p := parts[0];
      var tail := [p[1..]] + parts[1..];
      assert p == [p[0]] + p[1..];
      assert p[0] != sep by { assert p[0] in p; }
      assert tail[1..] == parts[1..];
      assert Join(tail, sep) == p[1..] + [sep] + Join(parts[1..], sep);
      assert s == [p[0]] + Join(tail, sep);
      assert s[1..] == Join(tail, sep);
      forall i | 0 <= i < |tail| ensures sep !in tail[i] {
        if i == 0 {
          assert forall k :: 0 <= k < |p[1..]| ==> p[1..][k] == p[k + 1];
        }
      }
      SplitUnique(tail, s[1..], sep);
      assert [p[0]] + tail[0] == p;
    }
  }

  /** The empty string is one empty segment. */
  lemma SplitEmpty(sep: char)
    ensures Split("", sep) == [""]
  {
  }

  // ---------------------------------------------------------------------------
  // Stripping (`str.strip()` without arguments)
  // ---------------------------------------------------------------------------

  /** A non-empty string without whitespace at either end. */
  predicate IsTrimmed(t: string) {
    t != "" && !IsWs(t[0]) && !IsWs(t[|t| - 1])
  }

  /** A token of the grade string: trimmed and comma-free. */
  predicate IsToken(t: string) {
    IsTrimmed(t) && Comma !in t
  }

  /** `s.lstrip()`: the longest suffix of `s` that does not start with whitespace. */
  function TrimLeft(s: string): (r: string)
    ensures |r| <= |s|
    ensures r != [] ==> !IsWs(r[0])
  {
    if |s| > 0 && IsWs(s[0]) then TrimLeft(s[1..]) else s
  }

  /** What `TrimLeft` drops is whitespace, and what it keeps does not start
      with whitespace. */
  lemma {:induction false} TrimLeftSpec(s: string)
    ensures var r := TrimLeft(s);
      && r == s[|s| - |r|..]
      && AllWs(s[..|s| - |r|])
      && (r != [] ==> !IsWs(r[0]))
    decreases |s|
  {
    if |s| > 0 && IsWs(s[0]) {
      TrimLeftSpec(s[1..]);
      var r := TrimLeft(s[1..]);
      assert s[..|s| - |r|] == [s[0]] + s[1..][..|s| - 1 - |r|];
    }
  }

  /** `s.rstrip()`: the longest prefix of `s` that does not end with whitespace. */
  function TrimRight(s: string): (r: string)
    ensures |r| <= |s|
    ensures r != [] ==> !IsWs(r[|r| - 1])
  {
    if |s| > 0 && IsWs(s[|s| - 1]) then TrimRight(s[..|s| - 1]) else s
  }

  /** What `TrimRight` drops is whitespace, and what it keeps does not end
      with whitespace. */
  lemma {:induction false} TrimRightSpec(s: string)
    ensures var r := TrimRight(s);
      && r == s[..|r|]
      && AllWs(s[|r|..])
      && (r != [] ==> !IsWs(r[|r| - 1]))
    decreases |s|
  {
    if |s| > 0 && IsWs(s[|s| - 1]) {
      TrimRightSpec(s[..|s| - 1]);
      var r := TrimRight(s[..|s| - 1]);
      assert s[|r|..] == s[..|s| - 1][|r|..] + [s[|s| - 1]];
    }
  }

  /** `s[i..j]` is what stripping leaves of `s`: everything outside is
      whitespace and, unless it is empty, it starts and ends with a
      non-whitespace character. */
  ghost predicate StrippedAt(s: string, i: int, j: int) {
    && 0 <= i <= j <= |s|
    && AllWs(s[..i])
    && AllWs(s[j..])
    && (i < j ==> !IsWs(s[i]) && !IsWs(s[j - 1]))
  }

  /** `s.strip()`: whitespace removed from both ends. */
  function Strip(s: string): (r: string)
    ensures r != "" ==> IsTrimmed(r)
    ensures Comma !in s ==> Comma !in r
  {
    var left := TrimLeft(s);
    var r := TrimRight(left);
    TrimLeftSpec(s);
    TrimRightSpec(left);
    var i := |s| - |left|;
    assert r == s[i..i + |r|];
    StripWitness(s, i, |r|);
    r
  }

  /** Stripping leaves exactly a span that `StrippedAt` describes. */
  lemma StripSpan(s: string)
    ensures exists i, j :: StrippedAt(s, i, j) && Strip(s) == s[i..j]
  {
    var left := TrimLeft(s);
    var r := TrimRight(left);
    TrimLeftSpec(s);
    TrimRightSpec(left);
    var i := |s| - |left|;
    assert r == s[i..i + |r|];
    StripWitness(s, i, |r|);
  }

  /** Trimming whitespace from the front up to `i`, then keeping the `n`
      characters before a whitespace tail, leaves the span `StrippedAt` describes. */
  lemma StripWitness(s: string, i: nat, n: nat)
    requires i + n <= |s|
    requires AllWs(s[..i])
    requires AllWs(s[i..][n..])
    requires n > 0 ==> !IsWs(s[i]) && !IsWs(s[i + n - 1])
    ensures StrippedAt(s, i, i + n)
    ensures n > 0 ==> IsTrimmed(s[i..i + n])
    ensures Comma !in s ==> Comma !in s[i..i + n]
  {
    assert s[i..][n..] == s[i + n..];
    if Comma in s[i..i + n] {
      var k :| 0 <= k < n && s[i..i + n][k] == Comma;
      assert s[i + k] == Comma;
    }
  }

  /** Whatever satisfies the stripping condition is the same string. */
  lemma StripUnique(s: string, i: int, j: int, i': int, j': int)
    requires StrippedAt(s, i, j) && StrippedAt(s, i', j')
    ensures s[i..j] == s[i'..j']
  {
    forall k | 0 <= k < i ensures IsWs(s[k]) { assert s[..i][k] == s[k]; }
    forall k | 0 <= k < i' ensures IsWs(s[k]) { assert s[..i'][k] == s[k]; }
    forall k | j <= k < |s| ensures IsWs(s[k]) { assert s[j..][k - j] == s[k]; }
    forall k | j' <= k < |s| ensures IsWs(s[k]) { assert s[j'..][k - j'] == s[k]; }
  }

  /** Stripping removes exactly the whitespace around a trimmed core. */
  lemma StripSurrounded(before: string, core: string, after: string)
    requires AllWs(before) && AllWs(after)
    requires IsTrimmed(core)
    ensures Strip(before + core + after) == core
  {
    var s := before + core + after;
    var i, j := |before|, |before| + |core|;
    assert s[..i] == before;
    assert s[j..] == after;
    assert s[i..j] == core;
    assert StrippedAt(s, i, j);
    StripSpan(s);
    var i', j' :| StrippedAt(s, i', j') && Strip(s) == s[i'..j'];
    StripUnique(s, i, j, i', j');
  }

  /** A segment strips to nothing exactly when it is all whitespace. */
  lemma StripEmptyIff(s: string)
    ensures Strip(s) == "" <==> AllWs(s)
  {
    var r := Strip(s);
    StripSpan(s);
    var i, j :| StrippedAt(s, i, j) && r == s[i..j];
    if r == "" {
      forall k | 0 <= k < |s| ensures IsWs(s[k]) {
        if k < i {
          assert s[..i][k] == s[k];
        } else {
          assert s[j..][k - j] == s[k];
        }
      }
    }
  }

  // ---------------------------------------------------------------------------
  // Keeping the non-blank segments
  // ---------------------------------------------------------------------------

  /** The comprehension filter `[x.strip() for x in segs if x.strip()]`. */
  function Keep(segs: seq<string>): (toks: seq<string>)
    ensures |toks| <= |segs|
    ensures forall i :: 0 <= i < |toks| ==> IsTrimmed(toks[i])
  {
    if segs == [] then []
    else
      var rest := Keep(segs[1..]);
      var t := Strip(segs[0]);
      if t == "" then rest
      else
        var toks := [t] + rest;
        assert forall i :: 0 <= i < |toks| ==> IsTrimmed(toks[i]) by {
          forall i | 0 <= i < |toks| ensures IsTrimmed(toks[i]) {
            if i > 0 { assert toks[i] == rest[i - 1]; }
          }
        }
        toks
  }

  /** Stripping never introduces a comma, so comma-free segments keep
      comma-free tokens. */
  lemma {:induction false} KeepSepFree(segs: seq<string>)
    requires SepFree(segs, Comma)
    ensures forall i :: 0 <= i < |Keep(segs)| ==> IsToken(Keep(segs)[i])
    decreases |segs|
  {
    if segs != [] {
      assert SepFree(segs[1..], Comma) by {
        forall i | 0 <= i < |segs[1..]| ensures Comma !in segs[1..][i] {
          assert segs[1..][i] == segs[i + 1];
        }
      }
      KeepSepFree(segs[1..]);
      var rest, t := Keep(segs[1..]), Strip(segs[0]);
      assert Comma !in segs[0];
      if t == "" {
        assert Keep(segs) == rest;
      } else {
        var toks := Keep(segs);
        assert toks == [t] + rest;
        forall i | 0 <= i < |toks| ensures IsToken(toks[i]) {
          if i > 0 { assert toks[i] == rest[i - 1]; }
        }
      }
    }
  }

  /** Keeping commutes with concatenation: tokens come out in segment order. */
  lemma {:induction false} KeepAppend(a: seq<string>, b: seq<string>)
    ensures Keep(a + b) == Keep(a) + Keep(b)
    decreases |a|
  {
    if a == [] {
      assert a + b == b;
    } else {
      assert (a + b)[1..] == a[1..] + b;
      KeepAppend(a[1..], b);
    }
  }

  /** A single segment yields its stripped form, or nothing when it is blank. */
  lemma KeepOne(seg: string)
    ensures Keep([seg]) == (if AllWs(seg) then [] else [Strip(seg)])
  {
    StripEmptyIff(seg);
  }

  /** `t` is the stripped form of one of the non-blank segments. */
  ghost predicate FromSegment(t: string, segs: seq<string>) {
    exists j :: 0 <= j < |segs| && !AllWs(segs[j]) && t == Strip(segs[j])
  }

  /** Every kept token is the stripped form of a segment that is not blank. */
  lemma {:induction false} KeepFromSegments(segs: seq<string>)
    ensures forall i :: 0 <= i < |Keep(segs)| ==> FromSegment(Keep(segs)[i], segs)
    decreases |segs|
  {
    if segs != [] {
      KeepFromSegments(segs[1..]);
      var rest, t := Keep(segs[1..]), Strip(segs[0]);
      var toks := Keep(segs);
      StripEmptyIff(segs[0]);
      if t == "" {
        assert toks == rest;
      } else {
        assert toks == [t] + rest;
      }
      forall i | 0 <= i < |toks| ensures FromSegment(toks[i], segs) {
        if t != "" && i == 0 {
          FromHeadSegment(segs);
        } else {
          var i' := if t != "" then i - 1 else i;
          assert toks[i] == rest[i'];
          FromLaterSegment(rest[i'], segs);
        }
      }
    }
  }

  /** The first segment, when not blank, supplies its stripped form. */
  lemma FromHeadSegment(segs: seq<string>)
    requires |segs| > 0 && !AllWs(segs[0])
    ensures FromSegment(Strip(segs[0]), segs)
  {
  }

  /** A token from a later segment is a token from the whole list. */
  lemma FromLaterSegment(t: string, segs: seq<string>)
    requires |segs| > 0 && FromSegment(t, segs[1..])
    ensures FromSegment(t, segs)
  {
    var j :| 0 <= j < |segs[1..]| && !AllWs(segs[1..][j]) && t == Strip(segs[1..][j]);
    assert segs[1..][j] == segs[j + 1];
  }

  /** Only all-blank segment lists yield no tokens. */
  lemma {:induction false} KeepEmptyIff(segs: seq<string>)
    ensures Keep(segs) == [] <==> forall j :: 0 <= j < |segs| ==> AllWs(segs[j])
  {
    if segs != [] {
      KeepEmptyIff(segs[1..]);
      StripEmptyIff(segs[0]);
      if forall j :: 0 <= j < |segs[1..]| ==> AllWs(segs[1..][j]) {
        if AllWs(segs[0]) {
          forall j | 0 <= j < |segs| ensures AllWs(segs[j]) {
            if j > 0 { assert segs[j] == segs[1..][j - 1]; }
          }
        }
      } else {
        var j :| 0 <= j < |segs[1..]| && !AllWs(segs[1..][j]);
        assert !AllWs(segs[j + 1]);
      }
    }
  }

  // ---------------------------------------------------------------------------
  // The whole token list
  // ---------------------------------------------------------------------------

  /** The tokens of the form field: its comma-separated segments, stripped,
      with blank segments dropped. */
  function Tokens(input: string): (toks: seq<string>)
    ensures forall i :: 0 <= i < |toks| ==> IsToken(toks[i])
  {
    KeepSepFree(Split(input, Comma));
    Keep(Split(input, Comma))
  }

  /** Joining two non-empty part lists puts one separator between their joins. */
  lemma {:induction false} JoinAppend(p: seq<string>, q: seq<string>, sep: char)
    requires |p| >= 1 && |q| >= 1
    ensures Join(p + q, sep) == Join(p, sep) + [sep] + Join(q, sep)
    decreases |p|
  {
    if |p| == 1 {
      assert (p + q)[1..] == q;
    } else {
      assert (p + q)[1..] == p[1..] + q;
      JoinAppend(p[1..], q, sep);
    }
  }

  /** Splitting at one separator and splitting the two sides separately agree. */
  lemma SplitAppend(x: string, y: string, sep: char)
    ensures Split(x + [sep] + y, sep) == Split(x, sep) + Split(y, sep)
  {
    var p, q := Split(x, sep), Split(y, sep);
    JoinAppend(p, q, sep);
    assert SepFree(p + q, sep) by {
      forall i | 0 <= i < |p + q| ensures sep !in (p + q)[i] {
        if i < |p| { assert (p + q)[i] == p[i]; } else { assert (p + q)[i] == q[i - |p|]; }
      }
    }
    SplitUnique(p + q, x + [sep] + y, sep);
  }

  /** The tokens on either side of a comma are the tokens of each side, in order. */
  lemma TokensAppend(x: string, y: string)
    ensures Tokens(x + [Comma] + y) == Tokens(x) + Tokens(y)
  {
    SplitAppend(x, y, Comma);
    KeepAppend(Split(x, Comma), Split(y, Comma));
  }

  /** A comma-free string is a single segment: one token, or none when blank. */
  lemma TokensOfSegment(seg: string)
    requires Comma !in seg
    ensures Tokens(seg) == (if AllWs(seg) then [] else [Strip(seg)])
  {
    SplitUnique([seg], seg, Comma);
    KeepOne(seg);
  }

  /** A comma-free segment made of a trimmed core padded with whitespace
      yields that core as its only token. */
  lemma TokensOfPadded(before: string, core: string, after: string)
    requires AllWs(before) && AllWs(after) && IsTrimmed(core)
    requires Comma !in before + core + after
    ensures Tokens(before + core + after) == [core]
  {
    var seg := before + core + after;
    TokensOfSegment(seg);
    StripSurrounded(before, core, after);
    assert seg[|before|] == core[0];
  }

  /** A comma-free blank segment yields no token. */
  lemma TokensOfBlank(seg: string)
    requires AllWs(seg) && Comma !in seg
    ensures Tokens(seg) == []
  {
    TokensOfSegment(seg);
  }

  /** Whitespace contains no separator. */
  lemma BlankHasNoComma(w: string)
    requires AllWs(w)
    ensures Comma !in w
  {
    assert !IsWs(Comma);
  }

  /** A blank segment before a comma contributes nothing. */
  lemma TokensSkipBlank(w: string, z: string)
    requires AllWs(w)
    ensures Tokens(w + [Comma] + z) == Tokens(z)
  {
    BlankHasNoComma(w);
    TokensAppend(w, z);
    TokensOfBlank(w);
  }

  /** A blank segment after a comma contributes nothing, so neither does a
      trailing comma. */
  lemma TokensBlankAfter(x: string, w: string)
    requires AllWs(w)
    ensures Tokens(x + [Comma] + w) == Tokens(x)
  {
    BlankHasNoComma(w);
    TokensAppend(x, w);
    TokensOfBlank(w);
  }

  /** A grade list written out: tokens separated by a comma and a gap of
      whitespace, as in `70, 80, 90` with a one-space gap. */
  function Format(toks: seq<string>, gap: string): string {
    if |toks| == 0 then ""
    else if |toks| == 1 then toks[0]
    else toks[0] + [Comma] + (gap + Format(toks[1..], gap))
  }

  /** A token after leading whitespace is the only token. */
  lemma TokensOfLead(lead: string, t: string)
    requires AllWs(lead) && IsToken(t)
    ensures Tokens(lead + t) == [t]
  {
    BlankHasNoComma(lead);
    assert lead + t == lead + t + "";
    TokensOfPadded(lead, t, "");
  }

  /** A token, after leading whitespace and before a comma, comes first in
      front of the tokens of what follows the comma. */
  lemma TokensAfterToken(lead: string, t: string, z: string, rest: seq<string>)
    requires AllWs(lead) && IsToken(t)
    requires Tokens(z) == rest
    ensures Tokens(lead + (t + [Comma] + z)) == [t] + rest
  {
    assert lead + (t + [Comma] + z) == lead + t + [Comma] + z;
    TokensOfLead(lead, t);
    TokensAppend(lead + t, z);
  }

  /** Tokenizing a written-out list of tokens, with any leading whitespace,
      gives back exactly that list. */
  lemma {:induction false} TokensOfFormat(lead: string, toks: seq<string>, gap: string)
    requires AllWs(lead) && AllWs(gap)
    requires forall i :: 0 <= i < |toks| ==> IsToken(toks[i])
    ensures Tokens(lead + Format(toks, gap)) == toks
    decreases |toks|
  {
    if |toks| == 0 {
      BlankHasNoComma(lead);
      assert lead + Format(toks, gap) == lead;
      TokensOfBlank(lead);
    } else if |toks| == 1 {
      assert lead + Format(toks, gap) == lead + toks[0];
      TokensOfLead(lead, toks[0]);
    } else {
      var z := gap + Format(toks[1..], gap);
      TokensOfFormat(gap, toks[1..], gap);
      assert Format(toks, gap) == toks[0] + [Comma] + (gap + Format(toks[1..], gap));
      TokensAfterToken(lead, toks[0], z, toks[1..]);
      assert [toks[0]] + toks[1..] == toks;
    }
  }

  /** A token on its own is its only token. */
  lemma TokensOfToken(t: string)
    requires IsToken(t)
    ensures Tokens(t) == [t]
  {
    TokensOfLead([], t);
    assert [] + t == t;
  }

  /** A token, a comma, a blank segment, a comma, a token and a blank tail. */
  lemma TokensSkippingBlanks(a: string, w: string, b: string, e: string)
    requires IsToken(a) && IsToken(b) && AllWs(w) && AllWs(e)
    ensures Tokens(a + [Comma] + (w + [Comma] + (b + [Comma] + e))) == [a, b]
  {
    TokensAppend(a, w + [Comma] + (b + [Comma] + e));
    TokensSkipBlank(w, b + [Comma] + e);
    TokensBlankAfter(b, e);
    TokensOfToken(a);
    TokensOfToken(b);
  }

  /** Every character of a join is a separator or a character of some part. */
  lemma {:induction false} JoinAllIff(parts: seq<string>, sep: char)
    requires IsBlankOrComma(sep)
    requires |parts| >= 1
    ensures AllBlankOrComma(Join(parts, sep)) <==> forall j :: 0 <= j < |parts| ==> AllBlankOrComma(parts[j])
  {
    if |parts| > 1 {
      JoinAllIff(parts[1..], sep);
      var rest := Join(parts[1..], sep);
      var whole := parts[0] + [sep] + rest;
      assert Join(parts, sep) == whole;
      if AllBlankOrComma(whole) {
        forall k | 0 <= k < |parts[0]| ensures IsBlankOrComma(parts[0][k]) {
          assert whole[k] == parts[0][k];
        }
        forall k | 0 <= k < |rest| ensures IsBlankOrComma(rest[k]) {
          assert whole[|parts[0]| + 1 + k] == rest[k];
        }
        forall j | 0 <= j < |parts| ensures AllBlankOrComma(parts[j]) {
          if j > 0 {
            assert parts[j] == parts[1..][j - 1];
          }
        }
      }
      if forall j :: 0 <= j < |parts| ==> AllBlankOrComma(parts[j]) {
        assert forall j :: 0 <= j < |parts[1..]| ==> parts[1..][j] == parts[j + 1];
        forall k | 0 <= k < |whole| ensures IsBlankOrComma(whole[k]) {
          if k < |parts[0]| {
            assert whole[k] == parts[0][k];
          } else if k > |parts[0]| {
            assert whole[k] == rest[k - |parts[0]| - 1];
          }
        }
      }
    }
  }

  /** The form field has no tokens exactly when it consists of commas and
      whitespace only: the empty string, `"   "` and `",,"` among them. */
  lemma TokensEmptyIff(input: string)
    ensures Tokens(input) == [] <==> AllBlankOrComma(input)
  {
    var segs := Split(input, Comma);
    KeepEmptyIff(segs);
    JoinAllIff(segs, Comma);
    forall j | 0 <= j < |segs| ensures AllWs(segs[j]) <==> AllBlankOrComma(segs[j]) {
      if AllBlankOrComma(segs[j]) {
        forall k | 0 <= k < |segs[j]| ensures IsWs(segs[j][k]) {
          assert segs[j][k] in segs[j];
        }
      }
    }
  }

  // ---------------------------------------------------------------------------
  // Conversion, all or nothing
  // ---------------------------------------------------------------------------

  /** Converts every token with `parse` (Python's `float()`): the first token
      it rejects makes the whole conversion fail, and no partial list exists. */
  function ParseAll(parse: string -> Option<real>, toks: seq<string>): (r: Option<seq<real>>)
    ensures r.Some? <==> forall i :: 0 <= i < |toks| ==> parse(toks[i]).Some?
    ensures r.Some? ==> |r.value| == |toks|
    ensures r.Some? ==> forall i :: 0 <= i < |toks| ==> parse(toks[i]) == Some(r.value[i])
  {
    if toks == [] then Some([])
    else
      match parse(toks[0])
      case None => None
      case Some(x) =>
        match ParseAll(parse, toks[1..])
        case None =>
          assert exists i :: 0 <= i < |toks| && parse(toks[i]).None? by {
            var i :| 0 <= i < |toks[1..]| && parse(toks[1..][i]).None?;
            assert parse(toks[i + 1]).None?;
          }
          None
        case Some(xs) =>
          Some([x] + xs)
  }

  // ---------------------------------------------------------------------------
  // Worked submissions
  // ---------------------------------------------------------------------------

  /** Three tokens written out with a comma and a space between them, as in
      `70, 80, 90`, come back as those three tokens. */
  lemma TokensOfThree(input: string, a: string, b: string, c: string)
    requires IsToken(a) && IsToken(b) && IsToken(c)
    requires input == a + ", " + b + ", " + c
    ensures Tokens(input) == [a, b, c]
  {
    var toks := [a, b, c];
    assert toks[1..] == [b, c] && toks[1..][1..] == [c];
    assert Format([c], " ") == c;
    assert Format([b, c], " ") == b + [Comma] + (" " + c);
    assert Format(toks, " ") == a + [Comma] + (" " + (b + [Comma] + (" " + c)));
    assert ", " == [Comma] + " ";
    assert "" + Format(toks, " ") == input;
    TokensOfFormat("", toks, " ");
  }

  /** The tokens of `70, ,80,`: the blank segment and the empty last one are dropped. */
  lemma TokensSparse(input: string)
    requires input == "70, ,80,"
    ensures Tokens(input) == ["70", "80"]
  {
    var a, w, b, e := "70", " ", "80", "";
    assert input == a + [Comma] + (w + [Comma] + (b + [Comma] + e));
    assert IsToken(a) && IsToken(b) && AllWs(w) && AllWs(e);
    TokensSkippingBlanks(a, w, b, e);
  }

  /** The tokens of ` 85 `. */
  lemma TokensSingleGrade(input: string)
    requires input == " 85 "
    ensures Tokens(input) == ["85"]
  {
    var sp, t := " ", "85";
    assert input == sp + t + sp;
    assert Comma !in input;
    TokensOfPadded(sp, t, sp);
  }
}
