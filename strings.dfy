/**
 * Byte-string helpers shared by every module: the PHP built-ins the core calls
 * (trim, rtrim, strtolower, stripos(..) === 0, str_ends_with, strpos, empty(),
 * implode, integer-to-string) written out over `string`, one character per byte.
 */
module Strings {

  datatype Option<+T> = None | Some(value: T)

  /** The characters PHP's trim and rtrim remove by default: " \t\n\r\0\x0B". */
  predicate IsTrimChar(c: char)
  {
    c == ' ' || c == '\t' || c == '\n' || c == '\r' || c == 0 as char || c == 11 as char
  }

  /** trim() without its optional character list: drops leading trim characters. */
  function TrimLeft(s: string): (r: string)
    ensures |r| <= |s| && r == s[|s| - |r|..]
    ensures forall i :: 0 <= i < |s| - |r| ==> IsTrimChar(s[i])
    ensures r == [] || !IsTrimChar(r[0])
  {
    if s == [] || !IsTrimChar(s[0]) then s else TrimLeft(s[1..])
  }

  /** rtrim(): drops trailing trim characters. */
  function TrimRight(s: string): (r: string)
    ensures |r| <= |s| && r == s[..|r|]
    ensures forall i :: |r| <= i < |s| ==> IsTrimChar(s[i])
    ensures r == [] || !IsTrimChar(r[|r| - 1])
  {
    if s == [] || !IsTrimChar(s[|s| - 1]) then s else TrimRight(s[..|s| - 1])
  }

  /** trim(): both ends. */
  function Trim(s: string): (r: string)
    ensures |r| <= |s|
    ensures r == [] || (!IsTrimChar(r[0]) && !IsTrimChar(r[|r| - 1]))
  {
    TrimRight(TrimLeft(s))
  }

  /** A string is blank exactly when every character of it is a trim character. */
  predicate IsBlank(s: string)
  {
    forall i :: 0 <= i < |s| ==> IsTrimChar(s[i])
  }

  lemma TrimEmptyIffBlank(s: string)
    ensures Trim(s) == [] <==> IsBlank(s)
  {
    var l := TrimLeft(s);
    if l != [] {
      assert !IsTrimChar(l[0]) && l[0] == s[|s| - |l|];
      assert |TrimRight(l)| >= 1;
    }
  }

  lemma {:induction false} TrimIdempotent(s: string)
    ensures Trim(Trim(s)) == Trim(s)
  {
    var r := Trim(s);
    if r != [] {
      assert TrimLeft(r) == r;
    }
  }

  /** rtrim leaves a prefix that ends in a kept character alone. */
  lemma {:induction false} TrimRightAppend(p: string, v: string)
    requires p != [] && !IsTrimChar(p[|p| - 1])
    ensures TrimRight(p + v) == p + TrimRight(v)
    decreases |v|
  {
    if v == [] {
      assert p + v == p;
    } else if IsTrimChar(v[|v| - 1]) {
      assert (p + v)[..|p + v| - 1] == p + v[..|v| - 1];
      TrimRightAppend(p, v[..|v| - 1]);
    }
  }

  lemma {:induction false} TrimLeftAfterBlank(s: string, t: string)
    requires TrimLeft(s) == []
    ensures TrimLeft(s + t) == TrimLeft(t)
    decreases |s|
  {
    if s == [] {
      assert s + t == t;
    } else {
      var st := s + t;
      assert st[0] == s[0] && IsTrimChar(s[0]);
      assert st[1..] == s[1..] + t;
      assert TrimLeft(s) == TrimLeft(s[1..]);
      TrimLeftAfterBlank(s[1..], t);
    }
  }

  lemma {:induction false} TrimLeftSnoc(s: string, c: char)
    requires TrimLeft(s) != []
    ensures TrimLeft(s + [c]) == TrimLeft(s) + [c]
    decreases |s|
  {
    var sc := s + [c];
    assert sc[0] == s[0];
    if IsTrimChar(s[0]) {
      assert sc[1..] == s[1..] + [c];
      assert TrimLeft(s) == TrimLeft(s[1..]);
      TrimLeftSnoc(s[1..], c);
    } else {
      assert TrimLeft(sc) == sc;
    }
  }

  /** trim's left pass stops inside a prefix that still has a kept character. */
  lemma {:induction false} TrimLeftAppend(s: string, t: string)
    requires TrimLeft(s) != []
    ensures TrimLeft(s + t) == TrimLeft(s) + t
    decreases |s|
  {
    var st := s + t;
    assert st[0] == s[0];
    if IsTrimChar(s[0]) {
      assert st[1..] == s[1..] + t;
      assert TrimLeft(s) == TrimLeft(s[1..]);
      TrimLeftAppend(s[1..], t);
    } else {
      assert TrimLeft(st) == st;
    }
  }

  lemma AppendAssoc(a: string, b: string, c: string)
    ensures a + (b + c) == (a + b) + c
  {
    assert forall i :: 0 <= i < |a + (b + c)| ==> (a + (b + c))[i] == ((a + b) + c)[i];
  }

  /** trim's left pass never reaches past a kept character. */
  lemma TrimLeftBeforeKept(s: string, t: string)
    requires t != [] && !IsTrimChar(t[0])
    ensures TrimLeft(s + t) == TrimLeft(s) + t
  {
    if TrimLeft(s) == [] {
      TrimLeftAfterBlank(s, t);
    } else {
      TrimLeftAppend(s, t);
    }
  }

  /** Trimming the left end and the right end can be done in either order. */
  lemma {:induction false} TrimEndsCommute(s: string)
    ensures TrimLeft(TrimRight(s)) == TrimRight(TrimLeft(s))
    decreases |s|
  {
    if s == [] {
    } else if IsTrimChar(s[|s| - 1]) {
      var init, c := s[..|s| - 1], s[|s| - 1];
      assert s == init + [c];
      assert TrimRight(s) == TrimRight(init);
      TrimEndsCommute(init);
      TrimLeftDropsTrailing(init, c);
    } else {
      assert TrimRight(s) == s;
      TrimLeftKeepsLast(s);
    }
  }

  /** A kept last character stays last after the left end is trimmed. */
  lemma TrimLeftKeepsLast(s: string)
    requires s != [] && !IsTrimChar(s[|s| - 1])
    ensures TrimRight(TrimLeft(s)) == TrimLeft(s)
  {
    var l := TrimLeft(s);
    assert l != [];
    assert l[|l| - 1] == s[|s| - 1];
  }

  /** A trailing trim character does not survive trim's two ends. */
  lemma TrimLeftDropsTrailing(init: string, c: char)
    requires IsTrimChar(c)
    ensures TrimRight(TrimLeft(init + [c])) == TrimRight(TrimLeft(init))
  {
    if TrimLeft(init) == [] {
      TrimLeftAfterBlank(init, [c]);
      assert [c][1..] == [];
      assert TrimLeft([c]) == TrimLeft([c][1..]);
    } else {
      TrimLeftSnoc(init, c);
      var l := TrimLeft(init) + [c];
      assert l[..|l| - 1] == TrimLeft(init);
      assert TrimRight(l) == TrimRight(l[..|l| - 1]);
    }
  }

  /** trim() after rtrim() is trim(). */
  lemma TrimAfterTrimRight(s: string)
    ensures Trim(TrimRight(s)) == Trim(s)
  {
    TrimEndsCommute(s);
    var r := TrimRight(TrimLeft(s));
    assert TrimRight(r) == r;
  }

  /** strtolower() as PHP 8 performs it: ASCII letters only. */
  function LowerChar(c: char): (r: char)
    ensures 'A' <= c <= 'Z' ==> r as int == c as int + 32
    ensures !('A' <= c <= 'Z') ==> r == c
  {
    if 'A' <= c <= 'Z' then (c as int + 32) as char else c
  }

  function Lower(s: string): (r: string)
    ensures |r| == |s| && forall i :: 0 <= i < |s| ==> r[i] == LowerChar(s[i])
  {
    seq(|s|, i requires 0 <= i < |s| => LowerChar(s[i]))
  }

  predicate StartsWith(s: string, prefix: string)
  {
    |prefix| <= |s| && s[..|prefix|] == prefix
  }

  /** stripos($s, $prefix) === 0: a case-insensitive prefix test. */
  predicate StartsWithCI(s: string, prefix: string)
  {
    StartsWith(Lower(s), Lower(prefix))
  }

  /** str_ends_with(). */
  predicate EndsWith(s: string, suffix: string)
  {
    |suffix| <= |s| && s[|s| - |suffix|..] == suffix
  }

  predicate OccursAt(s: string, needle: string, i: int)
  {
    0 <= i && i + |needle| <= |s| && s[i..i + |needle|] == needle
  }

  /** strpos($s, $needle) !== false. */
  predicate Contains(s: string, needle: string)
  {
    exists i | 0 <= i <= |s| - |needle| :: OccursAt(s, needle, i)
  }

  /** PHP empty() on a string: "" and "0" are both empty. */
  predicate PhpEmpty(s: string)
  {
    s == "" || s == "0"
  }

  predicate IsDigit(c: char)
  {
    '0' <= c <= '9'
  }

  /** The decimal notation PHP uses when it interpolates a non-negative int. */
  function NatToString(n: nat): (r: string)
    ensures |r| >= 1 && IsDigit(r[0])
    ensures forall i :: 0 <= i < |r| ==> IsDigit(r[i])
  {
    var digit := ['0' + (n % 10) as char];
    if n < 10 then digit else NatToString(n / 10) + digit
  }

  /** `$v ?? ''` on a request parameter. */
  function OrEmpty(v: Option<string>): (r: string)
    ensures v.None? ==> r == ""
    ensures v.Some? ==> r == v.value
  {
    if v.Some? then v.value else ""
  }

  /** A request parameter as is_numeric() sees it: not numeric, or numeric with the value
      PHP (and MySQL, comparing it with an integer column) reads from it. The parsing of the
      numeric string itself is not modelled. */
  datatype Numeric = NotNumeric | Number(value: real)

  /** The (int) cast of a numeric value: truncation toward zero. */
  function IntCast(v: real): (r: int)
    ensures v >= 0.0 ==> 0 <= r && r as real <= v < r as real + 1.0
    ensures v < 0.0 ==> r <= 0 && r as real - 1.0 < v <= r as real
  {
    if v >= 0.0 then v.Floor else -((-v).Floor)
  }

  /** implode($separator, $parts). */
  function Join(parts: seq<string>, separator: string): (r: string)
    ensures parts == [] ==> r == ""
    ensures |parts| == 1 ==> r == parts[0]
  {
    if parts == [] then ""
    else if |parts| == 1 then parts[0]
    else Join(parts[..|parts| - 1], separator) + separator + parts[|parts| - 1]
  }
}
