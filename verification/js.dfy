/** The few JavaScript built-ins the application leans on, stated over Dafny
    values: `undefined`, the truthiness of `a || b`, the `\s` whitespace class
    (which `String.prototype.trim` also uses), ASCII lower-casing, `includes`
    and `join`. */
module Js {

  /** A value that may be `undefined`. */
  datatype Option<+T> = None | Some(value: T) {

    /** `x ?? d`: the value, or the default when undefined. */
    function GetOr(d: T): T {
      match this
      case Some(v) => v
      case None => d
    }
  }

  /** How an awaited call to a collaborator (an HTTP request, a database
      write) settles: with a value, or by throwing. */
  datatype Settled<+T> = Resolved(value: T) | Rejected(message: string)

  /** A JavaScript number that may also be `NaN` (the result of `parseInt` on
      text with no digits). `NaN` is falsy and equal to nothing. */
  datatype Number = Num(n: int) | NaN

  /** A string is truthy iff it is defined and not empty. */
  predicate Truthy(s: Option<string>) {
    s.Some? && s.value != ""
  }

  /** `a || b` on two possibly-undefined strings. */
  function Or(a: Option<string>, b: Option<string>): Option<string> {
    if Truthy(a) then a else b
  }

  /** `a || d` with a defined string default. */
  function OrDefault(a: Option<string>, d: string): string {
    if Truthy(a) then a.value else d
  }

  /** `a || false` on a possibly-undefined boolean. */
  function OrFalse(a: Option<bool>): bool {
    a.Some? && a.value
  }

  /** A template literal `${x}` of a possibly-undefined string. */
  function Show(s: Option<string>): string {
    if s.Some? then s.value else "undefined"
  }

  /** `a || ""` is the same as reading `a` with an empty default: the empty
      string is the only falsy defined string, and it is its own default. */
  lemma OrEmptyIsGetOr(a: Option<string>)
    ensures OrDefault(a, "") == a.GetOr("")
  {
  }

  /** The characters the regular-expression class `\s` matches, which are
      also the ones `trim` removes (WhiteSpace and LineTerminator). */
  predicate IsSpace(c: char) {
    var n := c as int;
    n == 0x09 || n == 0x0A || n == 0x0B || n == 0x0C || n == 0x0D || n == 0x20
    || n == 0xA0 || n == 0x1680 || (0x2000 <= n <= 0x200A)
    || n == 0x2028 || n == 0x2029 || n == 0x202F || n == 0x205F
    || n == 0x3000 || n == 0xFEFF
  }

  predicate AllSpace(s: string) {
    forall i :: 0 <= i < |s| ==> IsSpace(s[i])
  }

  /** No whitespace at either end. */
  predicate Trimmed(s: string) {
    s == [] || (!IsSpace(s[0]) && !IsSpace(s[|s| - 1]))
  }

  /** No two neighbouring whitespace characters. */
  predicate NoDoubleSpace(s: string) {
    forall i :: 0 <= i < |s| - 1 ==> !(IsSpace(s[i]) && IsSpace(s[i + 1]))
  }

  /** The first position at or after `i` that holds no whitespace, or `|s|`
      when there is none. */
  function SkipSpaces(s: string, i: nat): (r: nat)
    requires i <= |s|
    ensures i <= r <= |s|
    ensures forall k :: i <= k < r ==> IsSpace(s[k])
    ensures r == |s| || !IsSpace(s[r])
    decreases |s| - i
  {
    if i == |s| || !IsSpace(s[i]) then i else SkipSpaces(s, i + 1)
  }

  /** Where `s[lo..j]` ends once its trailing whitespace is dropped. */
  function ContentEnd(s: string, lo: nat, j: nat): (r: nat)
    requires lo <= j <= |s|
    ensures lo <= r <= j
    ensures forall k :: r <= k < j ==> IsSpace(s[k])
    ensures r == lo || !IsSpace(s[r - 1])
    decreases j
  {
    if j == lo || !IsSpace(s[j - 1]) then j else ContentEnd(s, lo, j - 1)
  }

  /** Every character of `s[i..j]` is whitespace when every position in
      between holds whitespace. */
  lemma AllSpaceSlice(s: string, i: nat, j: nat)
    requires i <= j <= |s|
    requires forall k :: i <= k < j ==> IsSpace(s[k])
    ensures AllSpace(s[i..j])
  {
    forall k | 0 <= k < j - i ensures IsSpace(s[i..j][k]) {
      assert s[i..j][k] == s[i + k];
    }
  }

  /** `s.trim()`: a contiguous slice of `s` with whitespace removed from both
      ends and nothing else. */
  function Trim(s: string): (r: string)
    ensures Trimmed(r)
    ensures exists i, j ::
              0 <= i <= j <= |s| && r == s[i..j] && AllSpace(s[..i]) && AllSpace(s[j..])
  {
    var i := SkipSpaces(s, 0);
    var j := ContentEnd(s, i, |s|);
    AllSpaceSlice(s, 0, i);
    AllSpaceSlice(s, j, |s|);
    s[i..j]
  }

  /** `!s.trim()`: a string is blank iff it is made of whitespace only. */
  lemma {:induction false} BlankIffAllSpace(s: string)
    ensures Trim(s) == [] <==> AllSpace(s)
  {
    var i := SkipSpaces(s, 0);
    var j := ContentEnd(s, i, |s|);
    assert Trim(s) == s[i..j];
    if AllSpace(s) {
      assert i == |s|;
    }
    if i == j {
      assert forall k :: 0 <= k < |s| ==> IsSpace(s[k]);
    }
  }

  /** `s.replace(/\s+/g, ' ')`: every maximal run of whitespace becomes one
      space. */
  function Collapse(s: string): (r: string)
    ensures NoDoubleSpace(r)
    ensures forall i :: 0 <= i < |r| && IsSpace(r[i]) ==> r[i] == ' '
    ensures r == [] <==> s == []
    ensures r != [] ==> (IsSpace(r[0]) <==> IsSpace(s[0]))
    decreases |s|
  {
    if s == [] then []
    else if IsSpace(s[0]) then
      var rest := s[SkipSpaces(s, 1)..];
      var c := Collapse(rest);
      var r := [' '] + c;
      assert c != [] ==> !IsSpace(c[0]);
      forall k | 0 <= k < |r| - 1 ensures !(IsSpace(r[k]) && IsSpace(r[k + 1])) {
        if k > 0 {
          assert r[k] == c[k - 1] && r[k + 1] == c[k];
        }
      }
      r
    else
      var c := Collapse(s[1..]);
      var r := [s[0]] + c;
      forall k | 0 <= k < |r| - 1 ensures !(IsSpace(r[k]) && IsSpace(r[k + 1])) {
        if k > 0 {
          assert r[k] == c[k - 1] && r[k + 1] == c[k];
        }
      }
      r
  }

  /** A non-empty run of whitespace alone collapses to one space. */
  lemma CollapseRun(w: string)
    requires w != [] && AllSpace(w)
    ensures Collapse(w) == " "
  {
    assert SkipSpaces(w, 1) == |w|;
    assert w[|w|..] == [];
  }

  /** A non-empty run of whitespace before text that does not start with
      whitespace becomes one space in front of that text, collapsed. */
  lemma CollapseRunThen(w: string, y: string)
    requires w != [] && AllSpace(w)
    requires y == [] || !IsSpace(y[0])
    ensures Collapse(w + y) == " " + Collapse(y)
  {
    var s := w + y;
    var m := SkipSpaces(s, 1);
    if y != [] {
      assert s[|w|] == y[0];
    }
    assert m == |w|;
    assert s[m..] == y;
  }

  /** A non-whitespace character stays, in front of the rest collapsed. */
  lemma CollapseCharThen(c: char, y: string)
    requires !IsSpace(c)
    ensures Collapse([c] + y) == [c] + Collapse(y)
  {
    assert ([c] + y)[1..] == y;
  }

  /** A non-whitespace character cuts the string: what follows it collapses
      on its own, so no run crosses it. */
  lemma {:induction false} CollapseCut(x: string, c: char, y: string)
    requires !IsSpace(c)
    ensures Collapse(x + [c] + y) == Collapse(x + [c]) + Collapse(y)
    decreases |x|, 1
  {
    if x == [] {
      assert x + [c] + y == [c] + y && x + [c] == [c] + [];
      CollapseCharThen(c, y);
      CollapseCharThen(c, []);
    } else if !IsSpace(x[0]) {
      CollapseCutAfterChar(x, c, y);
    } else {
      CollapseCutAfterRun(x, c, y);
    }
  }

  /** `CollapseCut` when `x` starts with a non-whitespace character. */
  lemma {:induction false} CollapseCutAfterChar(x: string, c: char, y: string)
    requires x != [] && !IsSpace(x[0]) && !IsSpace(c)
    ensures Collapse(x + [c] + y) == Collapse(x + [c]) + Collapse(y)
    decreases |x|, 0
  {
    assert x + [c] + y == [x[0]] + (x[1..] + [c] + y);
    assert x + [c] == [x[0]] + (x[1..] + [c]);
    CollapseCut(x[1..], c, y);
    CollapseCharThen(x[0], x[1..] + [c] + y);
    CollapseCharThen(x[0], x[1..] + [c]);
  }

  /** `CollapseCut` when `x` starts with whitespace. */
  lemma {:induction false} CollapseCutAfterRun(x: string, c: char, y: string)
    requires x != [] && IsSpace(x[0]) && !IsSpace(c)
    ensures Collapse(x + [c] + y) == Collapse(x + [c]) + Collapse(y)
    decreases |x|, 0
  {
    var m := SkipSpaces(x, 1);
    var w := x[..m];
    var rest := x[m..];
    AllSpaceSlice(x, 0, m);
    assert x[0..m] == w;
    assert x + [c] + y == w + (rest + [c] + y) && x + [c] == w + (rest + [c]);
    CollapseRunThen(w, rest + [c] + y);
    CollapseRunThen(w, rest + [c]);
    CollapseCut(rest, c, y);
  }

  /** A string whose whitespace is already single spaces is left as it is. */
  lemma {:induction false} CollapseSingleSpaces(s: string)
    requires NoDoubleSpace(s) && forall i :: 0 <= i < |s| && IsSpace(s[i]) ==> s[i] == ' '
    ensures Collapse(s) == s
    decreases |s|
  {
    if s != [] {
      var t := s[1..];
      assert NoDoubleSpace(t) by {
        forall i | 0 <= i < |t| - 1 ensures !(IsSpace(t[i]) && IsSpace(t[i + 1])) {
          assert t[i] == s[i + 1] && t[i + 1] == s[i + 2];
        }
      }
      assert forall i :: 0 <= i < |t| && IsSpace(t[i]) ==> t[i] == ' ' by {
        forall i | 0 <= i < |t| && IsSpace(t[i]) ensures t[i] == ' ' {
          assert t[i] == s[i + 1];
        }
      }
      CollapseSingleSpaces(t);
      if IsSpace(s[0]) {
        if |s| > 1 {
          assert !IsSpace(s[1]);
        }
        assert SkipSpaces(s, 1) == 1;
      }
    }
  }

  /** Collapsing whitespace keeps every other character, in order. */
  lemma {:induction false} CollapseKeepsNonSpace(s: string)
    ensures NonSpace(Collapse(s)) == NonSpace(s)
    decreases |s|
  {
    if s == [] {
    } else if IsSpace(s[0]) {
      var m := SkipSpaces(s, 1);
      var rest := s[m..];
      CollapseKeepsNonSpace(rest);
      AllSpaceSlice(s, 0, m);
      assert s[0..m] == s[..m];
      NonSpaceOfSpaces(s[..m]);
      assert s == s[..m] + rest;
      NonSpaceAppend(s[..m], rest);
      NonSpaceAppend([' '], Collapse(rest));
    } else {
      CollapseKeepsNonSpace(s[1..]);
      assert s == [s[0]] + s[1..];
      NonSpaceAppend([s[0]], s[1..]);
      NonSpaceAppend([s[0]], Collapse(s[1..]));
    }
  }

  /** The non-whitespace characters of `s`, in order. */
  function NonSpace(s: string): string
  {
    if s == [] then []
    else if IsSpace(s[0]) then NonSpace(s[1..])
    else [s[0]] + NonSpace(s[1..])
  }

  lemma {:induction false} NonSpaceAppend(a: string, b: string)
    ensures NonSpace(a + b) == NonSpace(a) + NonSpace(b)
  {
    if a == [] {
      assert a + b == b;
    } else {
      assert (a + b)[1..] == a[1..] + b;
      NonSpaceAppend(a[1..], b);
    }
  }

  lemma {:induction false} NonSpaceOfSpaces(a: string)
    requires AllSpace(a)
    ensures NonSpace(a) == []
  {
    if a != [] {
      NonSpaceOfSpaces(a[1..]);
    }
  }

  /** Any string is the concatenation of its three slices at `i` and `j`. */
  lemma ThreeSlices<T>(s: seq<T>, i: nat, j: nat)
    requires i <= j <= |s|
    ensures s == s[..i] + s[i..j] + s[j..]
  {
  }

  /** Whitespace around `b` adds nothing to its non-whitespace characters. */
  lemma NonSpaceBetweenSpaces(a: string, b: string, c: string)
    requires AllSpace(a) && AllSpace(c)
    ensures NonSpace(a + b + c) == NonSpace(b)
  {
    NonSpaceAppend(a, b + c);
    NonSpaceAppend(b, c);
    NonSpaceOfSpaces(a);
    NonSpaceOfSpaces(c);
    assert a + b + c == a + (b + c);
  }

  /** Trimming removes whitespace only. */
  lemma {:induction false} TrimKeepsNonSpace(s: string)
    ensures NonSpace(Trim(s)) == NonSpace(s)
  {
    var i := SkipSpaces(s, 0);
    var j := ContentEnd(s, i, |s|);
    var left, mid, right := s[..i], s[i..j], s[j..];
    assert Trim(s) == mid;
    AllSpaceSlice(s, 0, i);
    AllSpaceSlice(s, j, |s|);
    ThreeSlices(s, i, j);
    NonSpaceBetweenSpaces(left, mid, right);
  }

  /** Trimming a string whose only whitespace is single spaces keeps it so. */
  lemma {:induction false} TrimKeepsSingleSpaces(s: string)
    requires NoDoubleSpace(s)
    requires forall k :: 0 <= k < |s| && IsSpace(s[k]) ==> s[k] == ' '
    ensures NoDoubleSpace(Trim(s))
    ensures forall k :: 0 <= k < |Trim(s)| && IsSpace(Trim(s)[k]) ==> Trim(s)[k] == ' '
  {
    var i := SkipSpaces(s, 0);
    var j := ContentEnd(s, i, |s|);
    assert Trim(s) == s[i..j];
    SliceKeepsSingleSpaces(s, i, j);
  }

  lemma {:induction false} SliceKeepsSingleSpaces(s: string, i: nat, j: nat)
    requires i <= j <= |s|
    requires NoDoubleSpace(s)
    requires forall k :: 0 <= k < |s| && IsSpace(s[k]) ==> s[k] == ' '
    ensures NoDoubleSpace(s[i..j])
    ensures forall k :: 0 <= k < j - i && IsSpace(s[i..j][k]) ==> s[i..j][k] == ' '
  {
    var r := s[i..j];
    forall k | 0 <= k < |r| - 1 ensures !(IsSpace(r[k]) && IsSpace(r[k + 1])) {
      assert r[k] == s[i + k] && r[k + 1] == s[i + k + 1];
    }
    forall k | 0 <= k < |r| && IsSpace(r[k]) ensures r[k] == ' ' {
      assert r[k] == s[i + k];
    }
  }

  /** ASCII upper-case letters become lower-case; every other character is
      kept. */
  function LowerChar(c: char): char {
    if 'A' <= c <= 'Z' then (c as int + 32) as char else c
  }

  /** `s.toLowerCase()`, restricted to ASCII. */
  function Lower(s: string): (r: string)
    ensures |r| == |s|
    ensures forall i :: 0 <= i < |s| ==> r[i] == LowerChar(s[i])
  {
    seq(|s|, i requires 0 <= i < |s| => LowerChar(s[i]))
  }

  /** `needle` occurs in `hay` at position `i`. */
  predicate OccursAt(hay: string, needle: string, i: int) {
    0 <= i && i + |needle| <= |hay| && hay[i..i + |needle|] == needle
  }

  /** `hay.includes(needle)`, searched from the left. */
  function Includes(hay: string, needle: string): (r: bool)
    ensures r <==> exists i :: OccursAt(hay, needle, i)
    decreases |hay|
  {
    if |needle| > |hay| then
      assert forall i :: !OccursAt(hay, needle, i);
      false
    else if hay[..|needle|] == needle then
      assert OccursAt(hay, needle, 0);
      true
    else
      var r := Includes(hay[1..], needle);
      forall i | 0 <= i ensures OccursAt(hay[1..], needle, i) <==> OccursAt(hay, needle, i + 1) {
        OccursShift(hay, needle, i);
      }
      assert r ==> exists i :: OccursAt(hay, needle, i) by {
        if r {
          var i :| OccursAt(hay[1..], needle, i);
          assert OccursAt(hay, needle, i + 1);
        }
      }
      assert (exists i :: OccursAt(hay, needle, i)) ==> r by {
        if exists i :: OccursAt(hay, needle, i) {
          var i :| OccursAt(hay, needle, i);
          assert i != 0;
          assert OccursAt(hay[1..], needle, i - 1);
        }
      }
      r
  }

  lemma OccursShift(hay: string, needle: string, i: int)
    requires hay != [] && 0 <= i
    ensures OccursAt(hay[1..], needle, i) <==> OccursAt(hay, needle, i + 1)
  {
    if 0 <= i && i + |needle| <= |hay| - 1 {
      assert hay[1..][i..i + |needle|] == hay[i + 1..i + 1 + |needle|];
    }
  }

  /** `items.join(sep)`. */
  function Join(items: seq<string>, sep: string): string
  {
    if items == [] then ""
    else if |items| == 1 then items[0]
    else items[0] + sep + Join(items[1..], sep)
  }

  /** A non-empty string with no whitespace. */
  predicate Word(w: string) {
    w != [] && forall i :: 0 <= i < |w| ==> !IsSpace(w[i])
  }

  /** Words joined by single spaces: the result has no whitespace at either
      end, no two whitespace characters in a row, and no whitespace other
      than those spaces. */
  lemma {:induction false} JoinWords(items: seq<string>)
    requires forall i :: 0 <= i < |items| ==> Word(items[i])
    ensures Trimmed(Join(items, " ")) && NoDoubleSpace(Join(items, " "))
    ensures forall i :: 0 <= i < |Join(items, " ")| && IsSpace(Join(items, " ")[i]) ==> Join(items, " ")[i] == ' '
    ensures items != [] ==> Join(items, " ") != []
  {
    if |items| > 1 {
      var a := items[0];
      var rest := items[1..];
      JoinWords(rest);
      var b := Join(rest, " ");
      var r := a + " " + b;
      assert Join(items, " ") == r;
      forall i | 0 <= i < |r| && IsSpace(r[i]) ensures r[i] == ' ' {
        if i > |a| {
          assert r[i] == b[i - |a| - 1];
        }
      }
      forall i | 0 <= i < |r| - 1 ensures !(IsSpace(r[i]) && IsSpace(r[i + 1])) {
        if i > |a| {
          assert r[i] == b[i - |a| - 1] && r[i + 1] == b[i - |a|];
        } else if i == |a| {
          assert r[i + 1] == b[0];
        }
      }
      assert r[|r| - 1] == b[|b| - 1];
    }
  }

  /** Trimming a string with no whitespace at either end leaves it as it is. */
  lemma TrimOfTrimmed(s: string)
    requires Trimmed(s)
    ensures Trim(s) == s
  {
    var i, j :| 0 <= i <= j <= |s| && Trim(s) == s[i..j] && AllSpace(s[..i]) && AllSpace(s[j..]);
    if i > 0 {
      assert s[..i][0] == s[0];
    }
    if j < |s| {
      assert s[j..][|s| - 1 - j] == s[|s| - 1];
    }
  }

  /** How many times `c` occurs in `s`. */
  function CountChar(s: string, c: char): nat
  {
    if s == [] then 0 else (if s[0] == c then 1 else 0) + CountChar(s[1..], c)
  }

  lemma {:induction false} CountCharAppend(a: string, b: string, c: char)
    ensures CountChar(a + b, c) == CountChar(a, c) + CountChar(b, c)
  {
    if a == [] {
      assert a + b == b;
    } else {
      assert (a + b)[1..] == a[1..] + b;
      CountCharAppend(a[1..], b, c);
    }
  }

  lemma {:induction false} CountCharAbsent(s: string, c: char)
    requires forall i :: 0 <= i < |s| ==> s[i] != c
    ensures CountChar(s, c) == 0
  {
    if s != [] {
      CountCharAbsent(s[1..], c);
    }
  }
}
