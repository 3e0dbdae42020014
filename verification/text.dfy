/**
 * The JavaScript string primitives that the blog's page scripts build on:
 * `trim`, `split(',')`, `indexOf`, `String.prototype.replace` with a string
 * pattern, a global literal regex replacement, `String(n)`, `padStart` and
 * the default order of `Array.prototype.sort`.
 *
 * Strings are sequences of Unicode scalar values.
 */
module Text {

  datatype Option<T> = None | Some(value: T)

  // ---------------------------------------------------------------------------
  // Whitespace and trimming
  // ---------------------------------------------------------------------------

  /** The characters `String.prototype.trim` strips and the regex class `\s`
      matches: ECMAScript WhiteSpace and LineTerminator. */
  predicate IsSpace(c: char) {
    || c == '\t' || c == '\n' || c == '\U{000B}' || c == '\U{000C}' || c == '\r'
    || c == ' ' || c == '\U{00A0}' || c == '\U{1680}' || '\U{2000}' <= c <= '\U{200A}'
    || c == '\U{2028}' || c == '\U{2029}' || c == '\U{202F}' || c == '\U{205F}'
    || c == '\U{3000}' || c == '\U{FEFF}'
  }

  predicate AllSpace(s: string) {
    forall i :: 0 <= i < |s| ==> IsSpace(s[i])
  }

  /** `s` with its leading whitespace removed. */
  function TrimStart(s: string): (r: string)
    ensures |r| <= |s|
  {
    if s != [] && IsSpace(s[0]) then TrimStart(s[1..]) else s
  }

  /** `TrimStart` removes a prefix made of whitespace only, and no more. */
  lemma {:induction false} TrimStartSpec(s: string)
    ensures TrimStart(s) == s[|s| - |TrimStart(s)|..]
    ensures AllSpace(s[..|s| - |TrimStart(s)|])
    ensures TrimStart(s) != [] ==> !IsSpace(TrimStart(s)[0])
    decreases |s|
  {
    if s != [] && IsSpace(s[0]) {
      var r := TrimStart(s[1..]);
      TrimStartSpec(s[1..]);
      assert s[..|s| - |r|] == [s[0]] + s[1..][..|s| - 1 - |r|];
    }
  }

  /** `s` with its trailing whitespace removed. */
  function TrimEnd(s: string): (r: string)
    ensures |r| <= |s|
  {
    if s != [] && IsSpace(s[|s| - 1]) then TrimEnd(s[..|s| - 1]) else s
  }

  /** `TrimEnd` removes a suffix made of whitespace only, and no more. */
  lemma {:induction false} TrimEndSpec(s: string)
    ensures TrimEnd(s) == s[..|TrimEnd(s)|]
    ensures AllSpace(s[|TrimEnd(s)|..])
    ensures TrimEnd(s) != [] ==> !IsSpace(TrimEnd(s)[|TrimEnd(s)| - 1])
    decreases |s|
  {
    if s != [] && IsSpace(s[|s| - 1]) {
      var r := TrimEnd(s[..|s| - 1]);
      TrimEndSpec(s[..|s| - 1]);
      assert s[|r|..] == s[..|s| - 1][|r|..] + [s[|s| - 1]];
    }
  }

  /** `String.prototype.trim`: no longer than `s`, and neither starting
      nor ending with whitespace. */
  function Trim(s: string): (r: string)
    ensures |r| <= |s|
    ensures r != [] ==> !IsSpace(r[0]) && !IsSpace(r[|r| - 1])
  {
    TrimStartSpec(s);
    TrimEndSpec(TrimStart(s));
    TrimEnd(TrimStart(s))
  }

  /** The trim of `s` is a slice of `s`. */
  lemma TrimSlice(s: string)
    ensures |s| - |TrimStart(s)| + |Trim(s)| <= |s|
    ensures Trim(s) == s[|s| - |TrimStart(s)|..|s| - |TrimStart(s)| + |Trim(s)|]
  {
    var a := TrimStart(s);
    TrimStartSpec(s);
    TrimEndSpec(a);
    var k, m := |s| - |a|, |TrimEnd(a)|;
    assert Trim(s) == a[..m];
    assert a[..m] == s[k..k + m];
  }

  /** The trim of `s` is empty iff `s` is all whitespace. */
  lemma TrimEmpty(s: string)
    ensures Trim(s) == [] <==> AllSpace(s)
  {
    var a := TrimStart(s);
    TrimStartSpec(s);
    TrimEndSpec(a);
    if Trim(s) == [] {
      assert s == s[..|s| - |a|] + a;
      assert AllSpace(a) by { assert a[0..] == a; }
    } else {
      assert !IsSpace(a[0]);
    }
  }

  /** Every character of the trimmed string comes from the original. */
  lemma TrimChars(s: string, c: char)
    requires c in Trim(s)
    ensures c in s
  {
    TrimSlice(s);
    var k := |s| - |TrimStart(s)|;
    var i :| 0 <= i < |Trim(s)| && Trim(s)[i] == c;
    assert s[k + i] == c;
  }

  /** A string with no whitespace at either end is its own trim. */
  lemma TrimmedFixpoint(s: string)
    requires s == [] || (!IsSpace(s[0]) && !IsSpace(s[|s| - 1]))
    ensures Trim(s) == s
  {
  }

  /** Trimming twice is trimming once. */
  lemma TrimIdempotent(s: string)
    ensures Trim(Trim(s)) == Trim(s)
  {
    TrimmedFixpoint(Trim(s));
  }

  /** `s || fallback` for a string: the empty string is falsy. */
  function OrElse(s: string, fallback: string): string
  {
    if s != "" then s else fallback
  }

  predicate StartsWith(s: string, p: string) {
    |p| <= |s| && s[..|p|] == p
  }

  predicate EndsWith(s: string, p: string) {
    |p| <= |s| && s[|s| - |p|..] == p
  }

  // ---------------------------------------------------------------------------
  // Splitting on a one-character separator, and comma lists
  // ---------------------------------------------------------------------------

  /** `s.split(sep)` for a one-character separator: the pieces between the
      separators, so always one more piece than there are separators. */
  function Split(s: string, sep: char): (r: seq<string>)
    ensures |r| >= 1
    ensures forall i :: 0 <= i < |r| ==> sep !in r[i]
    decreases |s|
  {
    if s == [] then [""]
    else
      var rest := Split(s[1..], sep);
      if s[0] == sep then [""] + rest
      else [[s[0]] + rest[0]] + rest[1..]
  }

  /** `ts.join(sep)` for a one-character separator. */
  function Join(ts: seq<string>, sep: char): string
  {
    if |ts| == 0 then ""
    else if |ts| == 1 then ts[0]
    else ts[0] + [sep] + Join(ts[1..], sep)
  }

  /** Joining the pieces of a split gives back the string. */
  lemma {:induction false} JoinSplit(s: string, sep: char)
    ensures Join(Split(s, sep), sep) == s
  {
    if s != [] {
      JoinSplit(s[1..], sep);
      var rest := Split(s[1..], sep);
      if s[0] != sep {
        if |rest| == 1 {
        } else {
          assert ([[s[0]] + rest[0]] + rest[1..])[1..] == rest[1..];
          assert Join(rest, sep) == rest[0] + [sep] + Join(rest[1..], sep);
        }
      } else {
        assert ([""] + rest)[1..] == rest;
      }
    }
  }

  /** A string without the separator splits into itself alone. */
  lemma {:induction false} SplitNoSep(a: string, sep: char)
    requires sep !in a
    ensures Split(a, sep) == [a]
    decreases |a|
  {
    if a != [] {
      SplitNoSep(a[1..], sep);
      assert [a[0]] + a[1..] == a;
    }
  }

  /** Splitting at a separator that follows a separator-free prefix. */
  lemma {:induction false} SplitAtFirst(a: string, b: string, sep: char)
    requires sep !in a
    ensures Split(a + [sep] + b, sep) == [a] + Split(b, sep)
    decreases |a|
  {
    if a == [] {
      assert a + [sep] + b == [sep] + b;
      assert ([sep] + b)[1..] == b;
    } else {
      var s := a + [sep] + b;
      assert s[1..] == a[1..] + [sep] + b;
      SplitAtFirst(a[1..], b, sep);
      assert [a[0]] + a[1..] == a;
    }
  }

  /** Splitting a join of separator-free pieces gives back the pieces. */
  lemma {:induction false} SplitJoin(ts: seq<string>, sep: char)
    requires |ts| >= 1
    requires forall i :: 0 <= i < |ts| ==> sep !in ts[i]
    ensures Split(Join(ts, sep), sep) == ts
    decreases |ts|
  {
    if |ts| == 1 {
      SplitNoSep(ts[0], sep);
    } else {
      SplitJoin(ts[1..], sep);
      SplitAtFirst(ts[0], Join(ts[1..], sep), sep);
      assert [ts[0]] + ts[1..] == ts;
    }
  }

  /** Every piece, trimmed (`pieces.map(c => c.trim())`). */
  function TrimAll(ps: seq<string>): (r: seq<string>)
    ensures |r| == |ps|
    ensures forall i :: 0 <= i < |ps| ==> r[i] == Trim(ps[i])
  {
    seq(|ps|, i requires 0 <= i < |ps| => Trim(ps[i]))
  }

  predicate Nonblank(t: string) {
    t != ""
  }

  /** The labels of a comma-separated attribute or form field: an empty field
      gives none; otherwise the comma-separated pieces, trimmed, with the
      empty ones dropped, in their original order. */
  function CommaList(s: string): (r: seq<string>)
    ensures forall i :: 0 <= i < |r| ==> r[i] != ""
  {
    if s == "" then [] else Filter(TrimAll(Split(s, ',')), Nonblank)
  }

  /** A label of a field is non-empty, trimmed and free of commas; and a
      string is a label iff it is non-empty and some comma-separated piece of
      the (non-empty) field trims to it. */
  lemma CommaListMembership(s: string, t: string)
    ensures t in CommaList(s) <==> s != "" && t != "" && t in TrimAll(Split(s, ','))
    ensures t in CommaList(s) ==> Trim(t) == t && ',' !in t
  {
    if s != "" {
      var ps := Split(s, ',');
      FilterMembership(TrimAll(ps), Nonblank, t);
      if t in TrimAll(ps) {
        var i :| 0 <= i < |ps| && TrimAll(ps)[i] == t;
        TrimIdempotent(ps[i]);
        forall c | c in t ensures c in ps[i] {
          TrimChars(ps[i], c);
        }
      }
    }
  }

  /** Writing the labels back as a comma-separated field and reading them
      again gives the same labels. */
  lemma CommaListRejoin(s: string)
    ensures CommaList(Join(CommaList(s), ',')) == CommaList(s)
  {
    var ts := CommaList(s);
    if ts != [] {
      forall i | 0 <= i < |ts| ensures ts[i] != "" && Trim(ts[i]) == ts[i] && ',' !in ts[i] {
        CommaListMembership(s, ts[i]);
      }
      RejoinClean(ts);
    }
  }

  /** Non-empty, trimmed, comma-free labels survive a join and a re-read. */
  lemma RejoinClean(ts: seq<string>)
    requires ts != []
    requires forall i :: 0 <= i < |ts| ==> ts[i] != "" && Trim(ts[i]) == ts[i] && ',' !in ts[i]
    ensures CommaList(Join(ts, ',')) == ts
  {
    var j := Join(ts, ',');
    JoinNonEmpty(ts, ',');
    SplitJoin(ts, ',');
    TrimAllTrimmed(ts);
    FilterAll(ts, Nonblank);
    assert CommaList(j) == Filter(TrimAll(Split(j, ',')), Nonblank);
  }

  lemma JoinNonEmpty(ts: seq<string>, sep: char)
    requires ts != [] && ts[0] != ""
    ensures Join(ts, sep) != ""
  {
    if |ts| > 1 { assert Join(ts, sep) == ts[0] + [sep] + Join(ts[1..], sep); }
  }

  lemma TrimAllTrimmed(ts: seq<string>)
    requires forall i :: 0 <= i < |ts| ==> Trim(ts[i]) == ts[i]
    ensures TrimAll(ts) == ts
  {
  }

  // ---------------------------------------------------------------------------
  // Searching and replacing
  // ---------------------------------------------------------------------------

  /** `p` occurs in `s` starting at index `j`. */
  predicate OccursAt(s: string, p: string, j: int) {
    0 <= j && j + |p| <= |s| && s[j..j + |p|] == p
  }

  /** `s.indexOf(p)`: the first index at which `p` occurs, if any. */
  function IndexOf(s: string, p: string): (r: Option<nat>)
    ensures r.Some? ==> OccursAt(s, p, r.value)
    ensures r.Some? ==> forall j :: 0 <= j < r.value ==> !OccursAt(s, p, j)
    ensures r.None? ==> forall j :: !OccursAt(s, p, j)
    decreases |s|
  {
    if StartsWith(s, p) then Some(0)
    else if s == [] then None
    else
      assert !OccursAt(s, p, 0);
      forall j | 1 <= j ensures OccursAt(s, p, j) <==> OccursAt(s[1..], p, j - 1) {
        OccursShift(s, p, j - 1);
      }
      match IndexOf(s[1..], p)
      case None => None
      case Some(k) => Some(k + 1)
  }

  /** An occurrence in the tail is an occurrence one place later in the whole. */
  lemma OccursShift(s: string, p: string, j: int)
    requires s != [] && 0 <= j
    ensures OccursAt(s[1..], p, j) <==> OccursAt(s, p, j + 1)
  {
    if j + 1 + |p| <= |s| {
      assert s[1..][j..j + |p|] == s[j + 1..j + 1 + |p|];
    }
  }

  /** If nothing before `|a|` starts an occurrence, the first occurrence of
      `p` in `a + p + c` is the one right after `a`. */
  lemma IndexOfAfter(a: string, p: string, c: string)
    requires forall j :: 0 <= j < |a| ==> !OccursAt(a + p + c, p, j)
    ensures IndexOf(a + p + c, p) == Some(|a|)
  {
    var s := a + p + c;
    assert s[|a|..|a| + |p|] == p;
    assert OccursAt(s, p, |a|);
  }

  /** A pattern whose first character does not recur in it cannot overlap
      itself, so when it is placed after a text that does not contain it,
      its first occurrence is the one placed. */
  lemma IndexOfPlaced(a: string, p: string, c: string)
    requires p != [] && p[0] !in p[1..]
    requires IndexOf(a, p).None?
    ensures IndexOf(a + p + c, p) == Some(|a|)
  {
    var s := a + p + c;
    forall j | 0 <= j < |a| ensures !OccursAt(s, p, j) {
      if j + |p| <= |a| {
        assert !OccursAt(a, p, j);
        assert s[j..j + |p|] == a[j..j + |p|];
      } else {
        var k := |a| - j;
        assert s[j..j + |p|][k] == s[|a|] == p[0];
        assert p[k] == p[1..][k - 1];
      }
    }
    IndexOfAfter(a, p, c);
  }

  /** The replacement-string patterns of `String.prototype.replace` (section
      22.1.3.19.1 GetSubstitution of ECMA-262) for a string pattern, which
      has no capture groups: `$$`, `$&`, `` $` `` and `$'`; every other
      character, `$` included, stands for itself. */
  function Substitute(repl: string, matched: string, before: string, after: string): (r: string)
    ensures '$' !in repl ==> r == repl
    decreases |repl|
  {
    if |repl| >= 2 && repl[0] == '$' && repl[1] == '$' then
      "$" + Substitute(repl[2..], matched, before, after)
    else if |repl| >= 2 && repl[0] == '$' && repl[1] == '&' then
      matched + Substitute(repl[2..], matched, before, after)
    else if |repl| >= 2 && repl[0] == '$' && repl[1] == '`' then
      before + Substitute(repl[2..], matched, before, after)
    else if |repl| >= 2 && repl[0] == '$' && repl[1] == '\'' then
      after + Substitute(repl[2..], matched, before, after)
    else if repl == [] then []
    else
      assert repl == [repl[0]] + repl[1..];
      [repl[0]] + Substitute(repl[1..], matched, before, after)
  }

  /** `s.replace(p, repl)` with a string pattern: only the first occurrence
      is replaced; without one, `s` is returned unchanged. */
  function ReplaceFirst(s: string, p: string, repl: string): (r: string)
    ensures IndexOf(s, p).None? ==> r == s
    ensures IndexOf(s, p).Some? ==>
      var i := IndexOf(s, p).value;
      var ins := Substitute(repl, p, s[..i], s[i + |p|..]);
      |r| == |s| - |p| + |ins| &&
      r[..i] == s[..i] && r[i..i + |ins|] == ins && r[i + |ins|..] == s[i + |p|..]
  {
    match IndexOf(s, p)
    case None => s
    case Some(i) => s[..i] + Substitute(repl, p, s[..i], s[i + |p|..]) + s[i + |p|..]
  }

  /** Replacing a pattern whose first occurrence is known splices the
      substituted replacement in at that place. */
  lemma ReplaceFirstPlaced(a: string, p: string, c: string, repl: string)
    requires IndexOf(a + p + c, p) == Some(|a|)
    ensures ReplaceFirst(a + p + c, p, repl) == a + Substitute(repl, p, a, c) + c
  {
    var s := a + p + c;
    assert s[..|a|] == a;
    assert s[|a| + |p|..] == c;
  }

  /** `s.replace(/p/g, repl)` for a regex that matches the literal `p` and a
      replacement without `$`: every occurrence found scanning left to right,
      without overlaps, is replaced. */
  function ReplaceAll(s: string, p: string, repl: string): string
    requires p != []
    decreases |s|
  {
    if s == [] then []
    else if StartsWith(s, p) then repl + ReplaceAll(s[|p|..], p, repl)
    else [s[0]] + ReplaceAll(s[1..], p, repl)
  }

  /** A global replacement is a first replacement followed by a global
      replacement of the rest: the text up to the first occurrence is kept,
      the occurrence becomes `repl`, and the search goes on after it. */
  lemma ReplaceAllFirst(s: string, p: string, repl: string, i: nat)
    requires p != [] && IndexOf(s, p) == Some(i)
    ensures ReplaceAll(s, p, repl) == s[..i] + repl + ReplaceAll(s[i + |p|..], p, repl)
  {
    ReplaceAllAt(s, p, repl, i);
  }

  /** The same for an occurrence at `i` with none before it. */
  lemma {:induction false} ReplaceAllAt(s: string, p: string, repl: string, i: nat)
    requires p != [] && OccursAt(s, p, i) && forall j :: 0 <= j < i ==> !OccursAt(s, p, j)
    ensures ReplaceAll(s, p, repl) == s[..i] + repl + ReplaceAll(s[i + |p|..], p, repl)
    decreases |s|
  {
    OccursAtStart(s, p);
    if StartsWith(s, p) {
      ReplaceAllHit(s, p, repl, i);
    } else {
      OccursShift(s, p, i - 1);
      forall j | 0 <= j < i - 1 ensures !OccursAt(s[1..], p, j) {
        OccursShift(s, p, j);
      }
      ReplaceAllAt(s[1..], p, repl, i - 1);
      ReplaceAllStep(s, p, repl, i);
    }
  }

  /** Where the pattern starts the text, it is replaced first. */
  lemma ReplaceAllHit(s: string, p: string, repl: string, i: nat)
    requires p != [] && StartsWith(s, p) && i == 0
    ensures ReplaceAll(s, p, repl) == s[..i] + repl + ReplaceAll(s[i + |p|..], p, repl)
  {
    assert s != [] && s[..i] == [] && s[i + |p|..] == s[|p|..];
    assert ReplaceAll(s, p, repl) == repl + ReplaceAll(s[|p|..], p, repl);
  }

  /** The first replacement in the tail, with the skipped first character
      put back in front, is the first replacement in the text. */
  lemma ReplaceAllStep(s: string, p: string, repl: string, i: nat)
    requires p != [] && s != [] && !StartsWith(s, p) && 1 <= i && i + |p| <= |s|
    requires ReplaceAll(s[1..], p, repl) == s[1..][..i - 1] + repl + ReplaceAll(s[1..][i - 1 + |p|..], p, repl)
    ensures ReplaceAll(s, p, repl) == s[..i] + repl + ReplaceAll(s[i + |p|..], p, repl)
  {
    ReplaceAllSkip(s, p, repl);
    ShiftJoin(s, i, |p|, repl, ReplaceAll(s[1..][i - 1 + |p|..], p, repl));
  }

  /** A first character that does not start the pattern is kept. */
  lemma ReplaceAllSkip(s: string, p: string, repl: string)
    requires p != [] && s != [] && !StartsWith(s, p)
    ensures ReplaceAll(s, p, repl) == [s[0]] + ReplaceAll(s[1..], p, repl)
  {
  }

  /** The first character of `s` put back in front of a slice of its tail,
      and a slice past it taken from the tail. */
  lemma ShiftJoin<T>(s: seq<T>, i: nat, m: nat, r: seq<T>, y: seq<T>)
    requires 1 <= i && i + m <= |s|
    ensures [s[0]] + (s[1..][..i - 1] + r + y) == s[..i] + r + y
    ensures s[i + m..] == s[1..][i - 1 + m..]
  {
    assert s[..i] == [s[0]] + s[1..][..i - 1];
  }

  /** Where the pattern does not occur, the global replacement changes nothing. */
  lemma {:induction false} ReplaceAllAbsent(s: string, p: string, repl: string)
    requires p != []
    ensures (forall j :: !OccursAt(s, p, j)) ==> ReplaceAll(s, p, repl) == s
    decreases |s|
  {
    if s != [] && forall j :: !OccursAt(s, p, j) {
      assert !OccursAt(s, p, 0);
      forall j | 0 <= j ensures !OccursAt(s[1..], p, j) {
        OccursShift(s, p, j);
      }
      ReplaceAllAbsent(s[1..], p, repl);
      assert [s[0]] + s[1..] == s;
    }
  }

  // What a global replacement leaves behind. An occurrence in the result
  // lies either in text that was kept, in one copy of the replacement, or
  // across the border of a copy; the predicates below rule out the last two.

  /** No proper suffix of `q` begins `r`. */
  predicate NoOverlapFrom(q: string, r: string) {
    forall k :: 0 < k < |q| ==> !StartsWith(r, q[k..])
  }

  /** From no position `j >= from` of `r` does `q` start, nor does `r[j..]`
      begin `q`. */
  predicate NoOverlapInto(r: string, q: string, from: nat) {
    forall j :: from <= j < |r| ==> !StartsWith(r[j..], q) && !StartsWith(q, r[j..])
  }

  /** An occurrence after a prefix is an occurrence in what follows it. */
  lemma OccursAfter(x: string, y: string, q: string, j: int)
    requires 0 <= j
    ensures OccursAt(x + y, q, |x| + j) <==> OccursAt(y, q, j)
  {
    if j + |q| <= |y| {
      assert (x + y)[|x| + j..|x| + j + |q|] == y[j..j + |q|];
    }
  }

  /** An occurrence at 0 is a prefix. */
  lemma OccursAtStart(x: string, q: string)
    ensures OccursAt(x, q, 0) <==> StartsWith(x, q)
  {
    if |q| <= |x| {
      assert x[0..|q|] == x[..|q|];
    }
  }

  /** A text that begins with one character begins with `z` iff the
      character is `z`'s first and the rest begins with the rest of `z`. */
  lemma StartsWithCons(c: char, y: string, z: string)
    requires z != []
    ensures StartsWith([c] + y, z) <==> c == z[0] && StartsWith(y, z[1..])
  {
    if |z| <= 1 + |y| {
      assert ([c] + y)[..|z|] == [c] + y[..|z| - 1];
    }
  }

  /** Where `q` cannot overlap the end of `r` from `from` on, it occurs at
      no such position of `r` followed by anything. */
  lemma NoOccurrenceAcross(r: string, y: string, q: string, from: nat, j: int)
    requires NoOverlapInto(r, q, from) && from <= j < |r|
    ensures !OccursAt(r + y, q, j)
  {
    if j + |q| <= |r| {
      assert (r + y)[j..j + |q|] == r[j..][..|q|];
    } else {
      assert (r + y)[j..|r|] == r[j..];
    }
  }

  /** `r` overlaps `q` nowhere when the pair `q[m], q[m + 1]` never occurs
      in `r` and none of the last `m + 1` suffixes of `r` begins `q`. */
  lemma NoOverlapIntoByPair(r: string, q: string, m: nat)
    requires m + 1 < |q|
    requires forall j :: 0 <= j < |r| - 1 ==> !(r[j] == q[m] && r[j + 1] == q[m + 1])
    requires forall j :: 0 <= j < |r| && |r| - m - 1 <= j ==> !StartsWith(q, r[j..])
    ensures NoOverlapInto(r, q, 0)
  {
    forall j | 0 <= j < |r| ensures !StartsWith(r[j..], q) && !StartsWith(q, r[j..]) {
      if |r| - j >= m + 2 {
        assert r[j..][m] == r[j + m] && r[j..][m + 1] == r[j + m + 1];
      }
    }
  }

  /** `x + y + z` overlaps `q` nowhere when `q[m]` occurs in it only as
      the last character of `x`, with no `q[m + 1]` after it, and none of
      the last `m + 1` suffixes of `z` begins `q`. */
  lemma NoOverlapIntoAcross(x: string, y: string, z: string, q: string, m: nat)
    requires m + 1 < |q| && x != [] && y != [] && m + 1 <= |z|
    requires q[m] !in x[..|x| - 1] && q[m] !in y && q[m] !in z && y[0] != q[m + 1]
    requires forall j :: 0 <= j < |z| && |z| - m - 1 <= j ==> !StartsWith(q, z[j..])
    ensures NoOverlapInto(x + y + z, q, 0)
  {
    var r := x + y + z;
    forall j | 0 <= j < |r| - 1 ensures !(r[j] == q[m] && r[j + 1] == q[m + 1]) {
      if j < |x| - 1 {
        assert r[j] == x[..|x| - 1][j];
      } else if j == |x| - 1 {
        assert r[j + 1] == y[0];
      } else if j < |x| + |y| {
        assert r[j] == y[j - |x|];
      } else {
        assert r[j] == z[j - |x| - |y|];
      }
    }
    forall j | 0 <= j < |r| && |r| - m - 1 <= j ensures !StartsWith(q, r[j..]) {
      assert r[j..] == z[j - |x| - |y|..];
    }
    NoOverlapIntoByPair(r, q, m);
  }

  /** `x + (y + z)` overlaps `q` nowhere when `q[m]` occurs nowhere in it
      and `q[0]` nowhere in a tail `z` of at least `m` characters. */
  lemma NoOverlapIntoByAbsent(x: string, y: string, z: string, q: string, m: nat)
    requires m < |q| && m <= |z| && q[m] !in x && q[m] !in y && q[m] !in z && q[0] !in z
    ensures NoOverlapInto(x + (y + z), q, 0)
  {
    var r := x + (y + z);
    forall j | 0 <= j < |r| ensures !StartsWith(r[j..], q) && !StartsWith(q, r[j..]) {
      if |r| - j > m {
        assert r[j..][m] == r[j + m];
      } else {
        assert r[j..][0] == z[j - |x| - |y|];
      }
    }
  }

  /** `x + y` begins with `x` and overlaps it nowhere else when `x[0]`
      occurs nowhere else in `x + y`. */
  lemma LeadApart(x: string, y: string)
    requires x != [] && x[0] !in x[1..] && x[0] !in y
    ensures StartsWith(x + y, x)
    ensures NoOverlapFrom(x, x + y) && NoOverlapInto(x + y, x, 1)
  {
    assert (x + y)[..|x|] == x;
    assert (x + y)[1..] == x[1..] + y;
    NoOverlapFromByChar(x, x + y);
    NoOverlapIntoByChar(x + y, x, 1);
  }

  /** A text in which `q`'s first character does not occur from `from` on
      overlaps `q` nowhere from there. */
  lemma NoOverlapIntoByChar(r: string, q: string, from: nat)
    requires q != [] && from <= |r| && q[0] !in r[from..]
    ensures NoOverlapInto(r, q, from)
  {
    forall j | from <= j < |r| ensures !StartsWith(r[j..], q) && !StartsWith(q, r[j..]) {
      assert r[j] == r[from..][j - from];
    }
  }

  /** A replacement whose first character occurs nowhere in `q` past its
      start begins with no proper suffix of `q`. */
  lemma NoOverlapFromByChar(q: string, r: string)
    requires r != [] && q != [] && r[0] !in q[1..]
    ensures NoOverlapFrom(q, r)
  {
    forall k | 0 < k < |q| ensures !StartsWith(r, q[k..]) {
      assert q[k] == q[1..][k - 1];
    }
  }

  /** The result of a global replacement can begin with a suffix of `q` only
      where the text did, when no proper suffix of `q` begins the
      replacement and `q` itself begins it only if it is the pattern. */
  lemma {:induction false} ReplaceAllPrefix(t: string, p: string, r: string, q: string, k: nat)
    requires p != [] && k < |q| <= |r|
    requires NoOverlapFrom(q, r) && (q == p || !StartsWith(r, q))
    ensures StartsWith(ReplaceAll(t, p, r), q[k..]) ==> StartsWith(t, q[k..])
    decreases |t|
  {
    var o := ReplaceAll(t, p, r);
    if t != [] && StartsWith(o, q[k..]) {
      if StartsWith(t, p) {
        assert o == r + ReplaceAll(t[|p|..], p, r);
        assert r[..|q| - k] == o[..|q| - k];
      } else {
        var o' := ReplaceAll(t[1..], p, r);
        assert o == [t[0]] + o';
        assert t == [t[0]] + t[1..];
        StartsWithCons(t[0], o', q[k..]);
        StartsWithCons(t[0], t[1..], q[k..]);
        assert q[k..][1..] == q[k + 1..];
        if k + 1 < |q| {
          ReplaceAllPrefix(t[1..], p, r, q, k + 1);
        }
      }
    }
  }

  /** A global replacement creates no occurrence of `q` that was not there:
      none at all when `q` is the pattern itself. */
  lemma {:induction false} ReplaceAllLeavesOut(s: string, p: string, r: string, q: string)
    requires p != [] && q != [] && |q| <= |r|
    requires NoOverlapFrom(q, r) && (q == p || !StartsWith(r, q)) && NoOverlapInto(r, q, 0)
    requires q == p || forall j :: !OccursAt(s, q, j)
    ensures forall j :: !OccursAt(ReplaceAll(s, p, r), q, j)
    decreases |s|
  {
    if s == [] {
      return;
    }
    var o := ReplaceAll(s, p, r);
    if StartsWith(s, p) {
      var rest := s[|p|..];
      var o' := ReplaceAll(rest, p, r);
      if q != p {
        assert s == s[..|p|] + rest;
        forall j | 0 <= j ensures !OccursAt(rest, q, j) {
          OccursAfter(s[..|p|], rest, q, j);
        }
      }
      ReplaceAllLeavesOut(rest, p, r, q);
      assert o == r + o';
      forall j ensures !OccursAt(o, q, j) {
        if 0 <= j < |r| {
          NoOccurrenceAcross(r, o', q, 0, j);
        } else if |r| <= j {
          OccursAfter(r, o', q, j - |r|);
        }
      }
    } else {
      var o' := ReplaceAll(s[1..], p, r);
      if q != p {
        forall j | 0 <= j ensures !OccursAt(s[1..], q, j) {
          OccursShift(s, q, j);
        }
      }
      ReplaceAllLeavesOut(s[1..], p, r, q);
      assert o == [s[0]] + o';
      forall j ensures !OccursAt(o, q, j) {
        if j == 0 {
          OccursAtStart(o, q);
          OccursAtStart(s, q);
          ReplaceAllPrefix(s, p, r, q, 0);
        } else if 1 <= j {
          OccursAfter([s[0]], o', q, j - 1);
        }
      }
    }
  }

  /** Every occurrence of `p` in `x` starts a copy of `r`. */
  ghost predicate Marked(x: string, p: string, r: string) {
    forall j :: OccursAt(x, p, j) ==> OccursAt(x, r, j)
  }

  /** A copy of `r` in front of a marked text keeps it marked, when `p`
      starts `r` and nowhere else in it or across its end. */
  lemma MarkedAfterCopy(r: string, y: string, p: string)
    requires StartsWith(r, p) && NoOverlapInto(r, p, 1) && Marked(y, p, r)
    ensures Marked(r + y, p, r)
  {
    forall j | OccursAt(r + y, p, j) ensures OccursAt(r + y, r, j) {
      if j == 0 {
        assert (r + y)[..|r|] == r;
        OccursAtStart(r + y, r);
      } else if j < |r| {
        NoOccurrenceAcross(r, y, p, 1, j);
      } else {
        OccursAfter(r, y, p, j - |r|);
        OccursAfter(r, y, r, j - |r|);
      }
    }
  }

  /** A character in front of a marked text keeps it marked, unless `p`
      then starts the text. */
  lemma MarkedAfterChar(c: char, y: string, p: string, r: string)
    requires !StartsWith([c] + y, p) && Marked(y, p, r)
    ensures Marked([c] + y, p, r)
  {
    forall j | OccursAt([c] + y, p, j) ensures OccursAt([c] + y, r, j) {
      if j == 0 {
        OccursAtStart([c] + y, p);
      } else {
        OccursAfter([c], y, p, j - 1);
        OccursAfter([c], y, r, j - 1);
      }
    }
  }

  /** When the replacement begins with the pattern, every occurrence of the
      pattern in the result is the start of a copy of the replacement. */
  lemma {:induction false} ReplaceAllMarks(s: string, p: string, r: string)
    requires p != [] && StartsWith(r, p)
    requires NoOverlapFrom(p, r) && NoOverlapInto(r, p, 1)
    ensures Marked(ReplaceAll(s, p, r), p, r)
    decreases |s|
  {
    if s == [] {
    } else if StartsWith(s, p) {
      var o' := ReplaceAll(s[|p|..], p, r);
      ReplaceAllMarks(s[|p|..], p, r);
      assert ReplaceAll(s, p, r) == r + o';
      MarkedAfterCopy(r, o', p);
    } else {
      var o' := ReplaceAll(s[1..], p, r);
      ReplaceAllMarks(s[1..], p, r);
      assert ReplaceAll(s, p, r) == [s[0]] + o';
      ReplaceAllPrefix(s, p, r, p, 0);
      MarkedAfterChar(s[0], o', p, r);
    }
  }

  // ---------------------------------------------------------------------------
  // Numbers as decimal text
  // ---------------------------------------------------------------------------

  predicate IsDigit(c: char) {
    '0' <= c <= '9'
  }

  predicate AllDigits(s: string) {
    forall i :: 0 <= i < |s| ==> IsDigit(s[i])
  }

  function DigitChar(d: nat): (c: char)
    requires d < 10
    ensures IsDigit(c) && c as int - '0' as int == d
  {
    "0123456789"[d]
  }

  /** `String(n)` for a natural number below 10^21 (from there on JavaScript
      switches to exponent notation): its decimal digits, no leading zero. */
  function Decimal(n: nat): (r: string)
    ensures |r| >= 1 && AllDigits(r)
    ensures n < 10 <==> |r| == 1
    ensures |r| > 1 ==> r[0] != '0'
  {
    if n < 10 then [DigitChar(n)] else Decimal(n / 10) + [DigitChar(n % 10)]
  }

  /** The value of a string of decimal digits (the empty string reads as 0). */
  function ParseDecimal(s: string): nat
    requires AllDigits(s)
  {
    if s == [] then 0
    else ParseDecimal(s[..|s| - 1]) * 10 + (s[|s| - 1] as int - '0' as int)
  }

  /** Reading the decimal text of a number gives back the number. */
  lemma {:induction false} DecimalRoundTrip(n: nat)
    ensures ParseDecimal(Decimal(n)) == n
  {
    if n >= 10 {
      DecimalRoundTrip(n / 10);
      var r := Decimal(n);
      assert r[..|r| - 1] == Decimal(n / 10);
    }
  }

  /** `String(i)` for an integer. */
  function IntToString(i: int): string
  {
    if i < 0 then "-" + Decimal(-i) else Decimal(i)
  }

  /** `s.padStart(2, '0')`. */
  function PadStart2(s: string): (r: string)
    ensures |r| == if |s| >= 2 then |s| else 2
    ensures r[|r| - |s|..] == s
    ensures forall i :: 0 <= i < |r| - |s| ==> r[i] == '0'
  {
    if |s| >= 2 then s else if |s| == 1 then "0" + s else "00"
  }

  // ---------------------------------------------------------------------------
  // Lexicographic order
  // ---------------------------------------------------------------------------

  /** Where a character sorts when strings are compared by UTF-16 code
      units: a character below U+D800 is a single unit of its own value; a
      character from U+10000 on becomes a surrogate pair led by a unit in
      0xD800-0xDBFF; so the characters U+E000-U+FFFF, single units above
      every lead surrogate, come after all of those. */
  function Rank(c: char): int
  {
    if c as int < 0xD800 then c as int
    else if c as int < 0x10000 then c as int + 0x110000
    else c as int
  }

  /** The default comparison of `Array.prototype.sort`: lexicographic order
      on characters ranked as their UTF-16 code units compare, a proper
      prefix before its extensions. */
  predicate LessEq(a: string, b: string)
    decreases |a|
  {
    a == [] || (b != [] && (Rank(a[0]) < Rank(b[0]) || (a[0] == b[0] && LessEq(a[1..], b[1..]))))
  }

  /** The UTF-16 encoding of one character. */
  function Units(c: char): (r: seq<int>)
    ensures |r| == if c as int < 0x10000 then 1 else 2
  {
    if c as int < 0x10000 then [c as int]
    else [0xD800 + (c as int - 0x10000) / 0x400, 0xDC00 + (c as int - 0x10000) % 0x400]
  }

  /** The UTF-16 code units of a string, as a JavaScript string holds them. */
  function CodeUnits(s: string): (r: seq<int>)
    ensures s != [] ==> r != []
  {
    if s == [] then [] else Units(s[0]) + CodeUnits(s[1..])
  }

  /** Lexicographic order on code-unit sequences, a proper prefix first:
      the comparison the SortCompare operation of ECMA-262 makes. */
  predicate UnitsLessEq(a: seq<int>, b: seq<int>)
    decreases |a|
  {
    a == [] || (b != [] && (a[0] < b[0] || (a[0] == b[0] && UnitsLessEq(a[1..], b[1..]))))
  }

  /** A common prefix of units does not decide the order. */
  lemma {:induction false} CommonUnits(u: seq<int>, a: seq<int>, b: seq<int>)
    ensures UnitsLessEq(u + a, u + b) == UnitsLessEq(a, b)
    decreases |u|
  {
    if u == [] {
      assert u + a == a && u + b == b;
    } else {
      assert (u + a)[1..] == u[1..] + a;
      assert (u + b)[1..] == u[1..] + b;
      CommonUnits(u[1..], a, b);
    }
  }

  /** Two different characters are ordered by their first differing code
      unit, which is the order of their ranks. */
  lemma FirstUnitsDiffer(x: char, y: char, a: seq<int>, b: seq<int>)
    requires x != y
    ensures UnitsLessEq(Units(x) + a, Units(y) + b) == (Rank(x) < Rank(y))
  {
    var u, v := Units(x) + a, Units(y) + b;
    assert u[0] == Units(x)[0] && v[0] == Units(y)[0];
    if Units(x)[0] == Units(y)[0] {
      assert x as int >= 0x10000 && y as int >= 0x10000;
      assert u[1..][0] == Units(x)[1] && v[1..][0] == Units(y)[1];
      assert Units(x)[1] != Units(y)[1];
    }
  }

  /** The order on strings is exactly the order of their UTF-16 code units. */
  lemma {:induction false} LessEqIsCodeUnitOrder(a: string, b: string)
    ensures LessEq(a, b) == UnitsLessEq(CodeUnits(a), CodeUnits(b))
    decreases |a|
  {
    if a != [] && b != [] {
      if a[0] == b[0] {
        LessEqIsCodeUnitOrder(a[1..], b[1..]);
        CommonUnits(Units(a[0]), CodeUnits(a[1..]), CodeUnits(b[1..]));
      } else {
        FirstUnitsDiffer(a[0], b[0], CodeUnits(a[1..]), CodeUnits(b[1..]));
      }
    }
  }

  lemma {:induction false} LessEqTotal(a: string, b: string)
    ensures LessEq(a, b) || LessEq(b, a)
    decreases |a|
  {
    if a != [] && b != [] && a[0] == b[0] {
      LessEqTotal(a[1..], b[1..]);
    }
  }

  lemma {:induction false} LessEqAntisymmetric(a: string, b: string)
    requires LessEq(a, b) && LessEq(b, a)
    ensures a == b
    decreases |a|
  {
    if a != [] {
      LessEqAntisymmetric(a[1..], b[1..]);
      assert a == [a[0]] + a[1..] && b == [b[0]] + b[1..];
    }
  }

  lemma {:induction false} LessEqTransitive(a: string, b: string, c: string)
    requires LessEq(a, b) && LessEq(b, c)
    ensures LessEq(a, c)
    decreases |a|
  {
    if a != [] && a[0] == b[0] && b[0] == c[0] {
      LessEqTransitive(a[1..], b[1..], c[1..]);
    }
  }

  predicate Sorted(s: seq<string>) {
    forall i, j :: 0 <= i < j < |s| ==> LessEq(s[i], s[j])
  }

  /** The tail of a sorted sequence is sorted. */
  lemma SortedTail(a: seq<string>)
    requires Sorted(a) && a != []
    ensures Sorted(a[1..])
  {
    forall i, j | 0 <= i < j < |a| - 1 ensures LessEq(a[1..][i], a[1..][j]) {
      assert a[1..][i] == a[i + 1] && a[1..][j] == a[j + 1];
    }
  }

  /** Equal multisets with equal heads have equal tails. */
  lemma TailMultiset(a: seq<string>, b: seq<string>)
    requires a != [] && b != [] && a[0] == b[0] && multiset(a) == multiset(b)
    ensures multiset(a[1..]) == multiset(b[1..])
  {
    assert a == [a[0]] + a[1..] && b == [b[0]] + b[1..];
    assert multiset(a) == multiset{a[0]} + multiset(a[1..]);
    assert multiset(b) == multiset{b[0]} + multiset(b[1..]);
    assert multiset(a[1..]) == multiset(a) - multiset{a[0]};
    assert multiset(b[1..]) == multiset(b) - multiset{b[0]};
  }

  /** Two sorted arrangements of the same labels are the same sequence. */
  lemma {:induction false} SortedUnique(a: seq<string>, b: seq<string>)
    requires Sorted(a) && Sorted(b) && multiset(a) == multiset(b)
    ensures a == b
    decreases |a|
  {
    assert |b| == |a| by { assert |multiset(a)| == |multiset(b)|; }
    if a != [] {
      SortedHeadIsLeast(a, b[0]);
      SortedHeadIsLeast(b, a[0]);
      LessEqAntisymmetric(a[0], b[0]);
      TailMultiset(a, b);
      SortedTail(a);
      SortedTail(b);
      SortedUnique(a[1..], b[1..]);
      assert a == [a[0]] + a[1..] && b == [b[0]] + b[1..];
    }
  }

  /** The head of a sorted sequence is below each of its elements. */
  lemma SortedHeadIsLeast(a: seq<string>, x: string)
    requires Sorted(a) && x in multiset(a)
    ensures LessEq(a[0], x)
  {
    var i :| 0 <= i < |a| && a[i] == x;
    if i == 0 {
      LessEqReflexive(x);
    }
  }

  lemma {:induction false} LessEqReflexive(a: string)
    ensures LessEq(a, a)
    decreases |a|
  {
    if a != [] { LessEqReflexive(a[1..]); }
  }

  /** `x` placed into a sequence before the first element above it. */
  function InsertSorted(s: seq<string>, x: string): (r: seq<string>)
    ensures multiset(r) == multiset(s) + multiset{x}
    decreases |s|
  {
    if s == [] then [x]
    else if LessEq(x, s[0]) then
      assert s == [s[0]] + s[1..];
      [x] + s
    else
      assert s == [s[0]] + s[1..];
      [s[0]] + InsertSorted(s[1..], x)
  }

  /** A sequence whose head is below all the rest, and whose rest is sorted, is sorted. */
  lemma ConsSorted(h: string, rest: seq<string>)
    requires Sorted(rest)
    requires forall y :: y in multiset(rest) ==> LessEq(h, y)
    ensures Sorted([h] + rest)
  {
    var r := [h] + rest;
    forall i, j | 0 <= i < j < |r| ensures LessEq(r[i], r[j]) {
      assert r[j] == rest[j - 1];
      if i > 0 {
        assert r[i] == rest[i - 1];
      } else {
        assert rest[j - 1] in multiset(rest);
      }
    }
  }

  /** Inserting into a sorted sequence keeps it sorted. */
  lemma {:induction false} InsertSortedSorted(s: seq<string>, x: string)
    requires Sorted(s)
    ensures Sorted(InsertSorted(s, x))
    decreases |s|
  {
    if s == [] {
    } else if LessEq(x, s[0]) {
      forall y | y in multiset(s) ensures LessEq(x, y) {
        SortedHeadIsLeast(s, y);
        LessEqTransitive(x, s[0], y);
      }
      ConsSorted(x, s);
    } else {
      var rest := InsertSorted(s[1..], x);
      SortedTail(s);
      InsertSortedSorted(s[1..], x);
      LessEqTotal(x, s[0]);
      forall y | y in multiset(rest) ensures LessEq(s[0], y) {
        if y != x {
          assert y in multiset(s[1..]);
          var j :| 0 <= j < |s[1..]| && s[1..][j] == y;
          assert s[j + 1] == y;
        }
      }
      ConsSorted(s[0], rest);
    }
  }

  /** `Array.prototype.sort()` with the default comparison: the same labels,
      in ascending order. */
  function SortStrings(s: seq<string>): (r: seq<string>)
    ensures Sorted(r) && multiset(r) == multiset(s)
    decreases |s|
  {
    if s == [] then []
    else
      assert s == s[..|s| - 1] + [s[|s| - 1]];
      var sorted := SortStrings(s[..|s| - 1]);
      InsertSortedSorted(sorted, s[|s| - 1]);
      InsertSorted(sorted, s[|s| - 1])
  }

  // ---------------------------------------------------------------------------
  // Filtering
  // ---------------------------------------------------------------------------

  /** The elements of `s` that satisfy `keep`, in order (`Array.prototype.filter`). */
  function Filter<T>(s: seq<T>, keep: T -> bool): (r: seq<T>)
    ensures |r| <= |s|
    ensures forall i :: 0 <= i < |r| ==> keep(r[i])
    decreases |s|
  {
    if s == [] then []
    else Filter(s[..|s| - 1], keep) + (if keep(s[|s| - 1]) then [s[|s| - 1]] else [])
  }

  /** An element survives the filter iff it was there and passes the test. */
  lemma {:induction false} FilterMembership<T>(s: seq<T>, keep: T -> bool, x: T)
    ensures x in Filter(s, keep) <==> x in s && keep(x)
    decreases |s|
  {
    if s != [] {
      var n := |s| - 1;
      FilterMembership(s[..n], keep, x);
      assert s == s[..n] + [s[n]];
    }
  }

  /** Filtering one more element appends it iff it passes. */
  lemma FilterSnoc<T>(s: seq<T>, keep: T -> bool, x: T)
    ensures Filter(s + [x], keep) == Filter(s, keep) + (if keep(x) then [x] else [])
  {
    assert (s + [x])[..|s|] == s;
  }

  /** A filter that keeps everything returns its input. */
  lemma {:induction false} FilterAll<T>(s: seq<T>, keep: T -> bool)
    requires forall i :: 0 <= i < |s| ==> keep(s[i])
    ensures Filter(s, keep) == s
    decreases |s|
  {
    if s != [] {
      FilterAll(s[..|s| - 1], keep);
      assert s[..|s| - 1] + [s[|s| - 1]] == s;
    }
  }

  /** A filter that keeps nothing returns nothing. */
  lemma {:induction false} FilterNone<T>(s: seq<T>, keep: T -> bool)
    requires forall i :: 0 <= i < |s| ==> !keep(s[i])
    ensures Filter(s, keep) == []
    decreases |s|
  {
    if s != [] {
      FilterNone(s[..|s| - 1], keep);
    }
  }
}
