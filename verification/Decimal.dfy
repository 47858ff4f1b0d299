// Decimal printing (operator<< on integers) and RedisProtocol::parse_integer,
// that is strtol in base 10 on everything after the marker byte.
module Decimal {
  import opened Wire

  predicate IsDigit(c: byte) {
    48 <= c <= 57
  }

  // isspace in the "C" locale
  predicate IsSpace(c: byte) {
    c == 32 || 9 <= c <= 13
  }

  predicate AllDigits(s: Bytes) {
    forall k | 0 <= k < |s| :: IsDigit(s[k])
  }

  predicate Int64(i: int) {
    INT64_MIN <= i <= INT64_MAX
  }

  function Digits(n: nat): (s: Bytes)
    ensures s != [] && AllDigits(s)
    ensures n > 0 ==> s[0] != 48
  {
    if n < 10 then [48 + n] else Digits(n / 10) + [48 + n % 10]
  }

  function PrintInt(i: int): (s: Bytes)
    ensures s != []
    ensures forall k | 0 <= k < |s| :: s[k] != CR && !IsSpace(s[k])
  {
    if i < 0 then [MINUS] + Digits(-i) else Digits(i)
  }

  function Pow10(k: nat): nat {
    if k == 0 then 1 else 10 * Pow10(k - 1)
  }

  lemma {:induction false} DigitsAtMost(n: nat, k: nat)
    requires n < Pow10(k) && k > 0
    ensures |Digits(n)| <= k
  {
    if n >= 10 {
      DigitsAtMost(n / 10, k - 1);
    }
  }

  function SkipSpaces(s: Bytes): (r: Bytes) {
    if s != [] && IsSpace(s[0]) then SkipSpaces(s[1..]) else s
  }

  /** The value of the leading digits of s, continuing from acc. */
  function ScanDigits(s: Bytes, acc: nat): (v: nat) {
    if s == [] || !IsDigit(s[0]) then acc else ScanDigits(s[1..], 10 * acc + (s[0] - 48))
  }

  /** strtol(s, NULL, 10); None is ERANGE. Text with no digits converts to 0. */
  function Strtol(s: Bytes): (r: Option<int>)
    ensures r.Some? ==> Int64(r.value)
  {
    var t := SkipSpaces(s);
    var negative := t != [] && t[0] == MINUS;
    var u := if t != [] && (t[0] == MINUS || t[0] == PLUS) then t[1..] else t;
    var m: int := ScanDigits(u, 0);
    var v := if negative then -m else m;
    if Int64(v) then Some(v) else None
  }

  /** parse_integer with a clean errno on entry. */
  function ParseInteger(line: Bytes): (r: Option<int>)
    requires line != []
    ensures r.Some? ==> Int64(r.value)
  {
    Strtol(line[1..])
  }

  lemma {:induction false} ScanSnoc(s: Bytes, d: byte, acc: nat)
    requires AllDigits(s) && IsDigit(d)
    ensures ScanDigits(s + [d], acc) == 10 * ScanDigits(s, acc) + (d - 48)
    decreases |s|
  {
    if s == [] {
      assert s + [d] == [d];
      assert ScanDigits([d], acc) == ScanDigits([], 10 * acc + (d - 48));
    } else {
      assert (s + [d])[1..] == s[1..] + [d];
      ScanSnoc(s[1..], d, 10 * acc + (s[0] - 48));
    }
  }

  lemma {:induction false} ScanPrinted(n: nat)
    ensures ScanDigits(Digits(n), 0) == n
  {
    if n < 10 {
      assert ScanDigits([48 + n], 0) == ScanDigits([], n);
    } else {
      ScanPrinted(n / 10);
      ScanSnoc(Digits(n / 10), 48 + n % 10, 0);
    }
  }

  /** The value of a text of digits, the last one being the units. */
  function Decimal(s: Bytes): int {
    if s == [] then 0
    else
      var last: int := s[|s| - 1];
      10 * Decimal(s[..|s| - 1]) + (last - 48)
  }

  lemma {:induction false} ScanIsDecimal(s: Bytes)
    requires AllDigits(s)
    ensures ScanDigits(s, 0) == Decimal(s)
    decreases |s|
  {
    if s != [] {
      var front, last := s[..|s| - 1], s[|s| - 1];
      ScanIsDecimal(front);
      ScanSnoc(front, last, 0);
      assert s == front + [last];
    }
  }

  /** What strtol makes of every text: blanks, a sign or none, digits or none, and what is no digit any more. */
  lemma StrtolReads(spaces: Bytes, sign: Bytes, digits: Bytes, junk: Bytes)
    requires forall k | 0 <= k < |spaces| :: spaces[k] == 32 || 9 <= spaces[k] <= 13
    requires sign == [] || sign == [43] || sign == [45]
    requires forall k | 0 <= k < |digits| :: 48 <= digits[k] <= 57
    requires junk == [] || !(48 <= junk[0] <= 57)
    requires sign == [] && digits == [] && junk != [] ==>
               !(junk[0] == 32 || 9 <= junk[0] <= 13 || junk[0] == 43 || junk[0] == 45)
    ensures var v := if sign == [45] then -Decimal(digits) else Decimal(digits);
      Strtol(spaces + (sign + (digits + junk))) ==
      if -0x8000_0000_0000_0000 <= v <= 0x7fff_ffff_ffff_ffff then Some(v) else None
  {
    hide SkipSpaces, ScanDigits, Decimal;
    var u := digits + junk;
    var t := sign + u;
    assert u != [] ==> u[0] == if digits != [] then digits[0] else junk[0];
    assert sign == [] ==> t == u;
    assert sign != [] ==> t[0] == sign[0] && t[1..] == u;
    SkipsSpaces(spaces, t);
    ScanStops(digits, junk, 0);
    ScanIsDecimal(digits);
  }

  /** Every printed int64 is parsed back, whatever the marker byte in front of it. */
  lemma ParsePrinted(marker: byte, i: int)
    requires -0x8000_0000_0000_0000 <= i <= 0x7fff_ffff_ffff_ffff
    ensures ParseInteger([marker] + PrintInt(i)) == Some(i)
  {
    var s := PrintInt(i);
    assert ([marker] + s)[1..] == s;
    assert SkipSpaces(s) == s;
    if i < 0 {
      ScanPrinted(-i);
      assert s[1..] == Digits(-i);
    } else {
      ScanPrinted(i);
      assert IsDigit(s[0]);
    }
  }

  lemma HeaderHasNoCrlf(marker: byte, i: int)
    requires marker != CR
    ensures NoCrlf([marker] + PrintInt(i))
  {
  }

  /** Printed integers outside the int64 range are refused. */
  lemma ParseOutOfRange(marker: byte, i: int)
    requires !(-0x8000_0000_0000_0000 <= i <= 0x7fff_ffff_ffff_ffff)
    ensures ParseInteger([marker] + PrintInt(i)) == None
  {
    var s := PrintInt(i);
    assert ([marker] + s)[1..] == s;
    assert SkipSpaces(s) == s;
    if i < 0 {
      ScanPrinted(-i);
      assert s[1..] == Digits(-i);
    } else {
      ScanPrinted(i);
      assert IsDigit(s[0]);
    }
  }

  lemma {:induction false} SkipsSpaces(spaces: Bytes, t: Bytes)
    requires forall k | 0 <= k < |spaces| :: IsSpace(spaces[k])
    requires t == [] || !IsSpace(t[0])
    ensures SkipSpaces(spaces + t) == t
  {
    if spaces == [] {
      assert spaces + t == t;
    } else {
      assert (spaces + t)[1..] == spaces[1..] + t;
      SkipsSpaces(spaces[1..], t);
    }
  }

  lemma {:induction false} ScanStops(s: Bytes, junk: Bytes, acc: nat)
    requires junk == [] || !IsDigit(junk[0])
    requires AllDigits(s)
    ensures ScanDigits(s + junk, acc) == ScanDigits(s, acc)
    decreases |s|
  {
    if s == [] {
      assert s + junk == junk;
    } else {
      assert (s + junk)[1..] == s[1..] + junk;
      ScanStops(s[1..], junk, 10 * acc + (s[0] - 48));
    }
  }

  /** Leading white space and anything after the digits are ignored: malformed numbers are accepted. */
  lemma LenientInteger(marker: byte, spaces: Bytes, i: int, junk: Bytes)
    requires Int64(i) && (forall k | 0 <= k < |spaces| :: spaces[k] == 32 || 9 <= spaces[k] <= 13)
    requires junk == [] || !(48 <= junk[0] <= 57)
    ensures ParseInteger([marker] + spaces + PrintInt(i) + junk) == Some(i)
  {
    hide Strtol, ScanDigits, Digits, Decimal;
    var n := if i < 0 then -i else i;
    var sign := if i < 0 then [45] else [];
    ScanPrinted(n);
    ScanIsDecimal(Digits(n));
    StrtolReads(spaces, sign, Digits(n), junk);
    assert ([marker] + spaces + PrintInt(i) + junk)[1..] == spaces + (sign + (Digits(n) + junk));
  }

  // ---------- errno ----------

  /**
   * parse_integer on successive lines, where nothing else writes errno; 'bad' says that errno
   * holds EINVAL or ERANGE.
   */
  function ParseRun(lines: seq<Bytes>, bad: bool): (rs: seq<Option<int>>)
    requires forall k | 0 <= k < |lines| :: lines[k] != []
    ensures |rs| == |lines|
    decreases |lines|
  {
    if lines == [] then []
    else
      var r := ParseInteger(lines[0]);
      var bad' := bad || r.None?;
      [if bad' then None else r] + ParseRun(lines[1..], bad')
  }

  /** errno is never cleared: a number is accepted exactly when it and all numbers before it are in range. */
  lemma {:induction false} OneBadNumberSpoilsTheRest(lines: seq<Bytes>, bad: bool, j: nat)
    requires (forall k | 0 <= k < |lines| :: lines[k] != []) && j < |lines|
    ensures ParseRun(lines, bad)[j] ==
            if bad || exists k: nat :: k <= j && ParseInteger(lines[k]).None? then None else ParseInteger(lines[j])
    decreases |lines|
  {
    hide ParseInteger;
    if j > 0 {
      var bad' := bad || ParseInteger(lines[0]).None?;
      OneBadNumberSpoilsTheRest(lines[1..], bad', j - 1);
      var tail := lines[1..];
      if k: nat :| k <= j && ParseInteger(lines[k]).None? {
        if k > 0 {
          assert ParseInteger(tail[k - 1]).None?;
        }
      }
      assert (exists k: nat :: k <= j - 1 && ParseInteger(tail[k]).None?) ==>
          exists k: nat :: k <= j && ParseInteger(lines[k]).None? by {
        if k: nat :| k <= j - 1 && ParseInteger(tail[k]).None? {
          assert ParseInteger(lines[k + 1]).None?;
        }
      }
    }
  }
}
