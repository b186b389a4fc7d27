/** Checking, decoding and encoding of UTF-8 in utf8.c, against the grammar of RFC 3629. */
module Utf8 {

  import opened Common

  type Byte = x: int | 0 <= x < 256

  // utf8proc_utf8class: the length a first byte announces, or zero.
  function Class(b: Byte): nat {
    if b < 0x80 then 1 else if b < 0xC0 then 0 else if b < 0xE0 then 2 else if b < 0xF0 then 3 else if b < 0xF8 then 4 else 0
  }

  // The test (b & 0xC0) == 0x80.
  predicate Continues(b: Byte) {
    0x80 <= b < 0xC0
  }

  // utf8proc_charlen; a negative result counts the bytes at fault.
  function CharLen(s: seq<Byte>): int {
    if s == [] then 0
    else
      var length := Class(s[0]);
      if length == 0 then -1
      else if length > |s| then -|s|
      else if length > 1 && !Continues(s[1]) then -1
      else if length > 2 && !Continues(s[2]) then -2
      else if length > 3 && !Continues(s[3]) then -3
      else length
  }

  // utf8proc_valid
  function Valid(s: seq<Byte>): (r: int)
    requires s != []
    ensures r != 0 && -|s| <= r <= |s|
  {
    var length := Class(s[0]);
    if length == 0 then -1
    else if length > |s| then -|s|
    else if length == 2 then
      if !Continues(s[1]) then -1 else if s[0] < 0xC2 then -2 else 2
    else if length == 3 then
      if !Continues(s[1]) then -1 else if !Continues(s[2]) then -2
      else if s[0] == 0xE0 && s[1] < 0xA0 then -3
      else if s[0] == 0xED && s[1] >= 0xA0 then -3 else 3
    else if length == 4 then
      if !Continues(s[1]) then -1 else if !Continues(s[2]) then -2 else if !Continues(s[3]) then -3
      else if s[0] == 0xF0 && s[1] < 0x90 then -4
      else if s[0] >= 0xF4 && (s[0] > 0xF4 || s[1] >= 0x90) then -4 else 4
    else length
  }

  // ---------- the grammar ----------

  /** Section 4 of RFC 3629: s begins with a UTF8-char of n bytes. */
  predicate Utf8Char(s: seq<Byte>, n: nat) {
    && n <= |s|
    && ( (n == 1 && s[0] <= 0x7F)
      || (n == 2 && 0xC2 <= s[0] <= 0xDF && Tail(s[1]))
      || (n == 3 && s[0] == 0xE0 && 0xA0 <= s[1] <= 0xBF && Tail(s[2]))
      || (n == 3 && (0xE1 <= s[0] <= 0xEC || 0xEE <= s[0] <= 0xEF) && Tail(s[1]) && Tail(s[2]))
      || (n == 3 && s[0] == 0xED && 0x80 <= s[1] <= 0x9F && Tail(s[2]))
      || (n == 4 && s[0] == 0xF0 && 0x90 <= s[1] <= 0xBF && Tail(s[2]) && Tail(s[3]))
      || (n == 4 && 0xF1 <= s[0] <= 0xF3 && Tail(s[1]) && Tail(s[2]) && Tail(s[3]))
      || (n == 4 && s[0] == 0xF4 && 0x80 <= s[1] <= 0x8F && Tail(s[2]) && Tail(s[3])))
  }

  // UTF8-tail
  predicate Tail(b: Byte) {
    0x80 <= b <= 0xBF
  }

  /** The check accepts n bytes exactly when the grammar does. */
  lemma ValidIsGrammar(s: seq<Byte>, n: nat)
    requires s != [] && n > 0
    ensures Valid(s) == n <==> Utf8Char(s, n)
  {
  }

  // ---------- decoding and encoding ----------

  // cmark_utf8proc_iterate: the length and the code point, or -1 twice; zero for no bytes at all never decodes.
  function Iterate(s: seq<Byte>): (int, int) {
    var length := CharLen(s);
    if length < 0 then (-1, -1)
    else
      var uc := if length == 0 then -1 else Decode(s, length);
      if uc < 0 then (-1, -1) else (length, uc)
  }

  // The payload bits of one to four bytes, put together.
  function Join2(a: int, b: int): int {
    a % 0x20 * 0x40 + b % 0x40
  }

  function Join3(a: int, b: int, c: int): int {
    a % 0x10 * 0x1000 + b % 0x40 * 0x40 + c % 0x40
  }

  function Join4(a: int, b: int, c: int, d: int): int {
    a % 0x08 * 0x40000 + b % 0x40 * 0x1000 + c % 0x40 * 0x40 + d % 0x40
  }

  function Decode(s: seq<Byte>, length: nat): int
    requires 0 < length <= |s|
  {
    if length == 1 then s[0]
    else if length == 2 then
      var uc := Join2(s[0], s[1]);
      if uc < 0x80 then -1 else uc
    else if length == 3 then
      var uc := Join3(s[0], s[1], s[2]);
      if uc < 0x800 || 0xD800 <= uc < 0xE000 then -1 else uc
    else if length == 4 then
      var uc := Join4(s[0], s[1], s[2], s[3]);
      if uc < 0x10000 || uc >= 0x110000 then -1 else uc
    else -1
  }

  const REPLACEMENT: seq<Byte> := [0xEF, 0xBF, 0xBD]

  // cmark_utf8proc_encode_char
  function Encode(uc: nat): (s: seq<Byte>)
    ensures s != []
  {
    if uc < 0x80 then [uc]
    else if uc < 0x800 then [0xC0 + uc / 0x40, 0x80 + uc % 0x40]
    else if uc == 0xFFFF then [0xFF]
    else if uc == 0xFFFE then [0xFE]
    else if uc < 0x10000 then [0xE0 + uc / 0x1000, 0x80 + uc / 0x40 % 0x40, 0x80 + uc % 0x40]
    else if uc < 0x110000 then [0xF0 + uc / 0x40000, 0x80 + uc / 0x1000 % 0x40, 0x80 + uc / 0x40 % 0x40, 0x80 + uc % 0x40]
    else REPLACEMENT
  }

  // A Unicode scalar value.
  predicate Scalar(uc: nat) {
    uc < 0xD800 || 0xE000 <= uc < 0x110000
  }

  /** Decoding succeeds exactly where the check does, with the same length, and gives a scalar value. */
  lemma IterateIsValid(s: seq<Byte>)
    requires s != []
    ensures Iterate(s).0 > 0 <==> Valid(s) > 0
    ensures Valid(s) > 0 ==> Iterate(s).0 == Valid(s) && 0 <= Iterate(s).1 && Scalar(Iterate(s).1)
  {
  }

  lemma Split2(uc: nat)
    requires uc < 0x800
    ensures Join2(0xC0 + uc / 0x40, 0x80 + uc % 0x40) == uc
  {
  }

  lemma Split3(uc: nat)
    requires uc < 0x10000
    ensures Join3(0xE0 + uc / 0x1000, 0x80 + uc / 0x40 % 0x40, 0x80 + uc % 0x40) == uc
  {
  }

  lemma SixBits(q: nat, r: nat)
    requires r < 0x40
    ensures (q * 0x40 + r) / 0x40 == q && (q * 0x40 + r) % 0x40 == r
  {
  }

  // Dropping six bits at a time.
  lemma DropBits(uc: nat)
    ensures uc / 0x1000 == uc / 0x40 / 0x40 && uc / 0x40000 == uc / 0x40 / 0x40 / 0x40
  {
  }

  lemma Split4(uc: nat)
    requires uc < 0x200000
    ensures Join4(0xF0 + uc / 0x40000, 0x80 + uc / 0x1000 % 0x40, 0x80 + uc / 0x40 % 0x40, 0x80 + uc % 0x40) == uc
  {
    DropBits(uc);
    var (p, q, r) := (uc / 0x40 / 0x40 / 0x40, uc / 0x40 / 0x40, uc / 0x40);
    Payload4(0xF0 + p, 0x80 + q % 0x40, 0x80 + r % 0x40, 0x80 + uc % 0x40);
  }

  lemma Payload4(a: int, b: int, c: int, d: int)
    requires 0xF0 <= a < 0xF8 && 0x80 <= b < 0xC0 && 0x80 <= c < 0xC0 && 0x80 <= d < 0xC0
    ensures Join4(a, b, c, d) == (a - 0xF0) * 0x40000 + (b - 0x80) * 0x1000 + (c - 0x80) * 0x40 + (d - 0x80)
  {
    assert a % 0x08 == a - 0xF0 && b % 0x40 == b - 0x80 && c % 0x40 == c - 0x80 && d % 0x40 == d - 0x80;
  }

  /** Decoding inverts encoding exactly for the scalar values other than U+FFFE and U+FFFF, whatever follows. */
  lemma DecodeEncoded(uc: nat, rest: seq<Byte>)
    ensures Iterate(Encode(uc) + rest) == (|Encode(uc)|, uc) <==> Scalar(uc) && uc != 0xFFFE && uc != 0xFFFF
  {
    if uc < 0x80 {
    } else if uc < 0x800 {
      Split2(uc);
    } else if uc < 0x10000 {
      Split3(uc);
    } else if uc < 0x110000 {
      Split4(uc);
    }
  }

  lemma EncodeDecoded2(s: seq<Byte>, uc: nat)
    requires |s| >= 2 && Valid(s) == 2 && Iterate(s) == (2, uc)
    ensures Encode(uc) == [s[0], s[1]]
  {
    Bits2(s[0], s[1]);
    assert uc == Join2(s[0], s[1]) && 0x80 <= uc < 0x800;
  }

  lemma EncodeDecoded3(s: seq<Byte>, uc: nat)
    requires |s| >= 3 && Valid(s) == 3 && Iterate(s) == (3, uc)
    ensures 0x800 <= uc < 0x10000 && (uc != 0xFFFE && uc != 0xFFFF ==> Encode(uc) == [s[0], s[1], s[2]])
  {
    Bits3(s[0], s[1], s[2]);
    assert uc == Join3(s[0], s[1], s[2]);
  }

  lemma EncodeDecoded4(s: seq<Byte>, uc: nat)
    requires |s| >= 4 && Valid(s) == 4 && Iterate(s) == (4, uc)
    ensures Encode(uc) == [s[0], s[1], s[2], s[3]] && uc >= 0x10000
  {
    Bits4(s[0], s[1], s[2], s[3]);
    assert uc == Join4(s[0], s[1], s[2], s[3]) && 0x10000 <= uc < 0x110000;
  }

  lemma FirstBytes(s: seq<Byte>)
    ensures |s| >= 1 ==> s[..1] == [s[0]]
    ensures |s| >= 2 ==> s[..2] == [s[0], s[1]]
    ensures |s| >= 3 ==> s[..3] == [s[0], s[1], s[2]]
    ensures |s| >= 4 ==> s[..4] == [s[0], s[1], s[2], s[3]]
  {
  }

  // The bytes of a decoded character, by their number.
  lemma EncodedBytes(s: seq<Byte>, n: nat, uc: nat)
    requires n <= |s| && n > 0 && Valid(s) == n && Iterate(s) == (n, uc)
    ensures uc != 0xFFFE && uc != 0xFFFF ==> Encode(uc) == s[..n]
    ensures uc == 0xFFFE || uc == 0xFFFF ==> n == 3
  {
    FirstBytes(s);
    if n == 2 {
      EncodeDecoded2(s, uc);
    } else if n == 3 {
      EncodeDecoded3(s, uc);
    } else if n == 4 {
      EncodeDecoded4(s, uc);
    }
  }

  /** What was decoded encodes to the bytes it was decoded from, with the same two exceptions. */
  lemma EncodeDecoded(s: seq<Byte>)
    requires s != [] && Valid(s) > 0
    ensures 0 <= Iterate(s).1
    ensures Encode(Iterate(s).1) == s[..Valid(s)] <==> Iterate(s).1 != 0xFFFE && Iterate(s).1 != 0xFFFF
  {
    IterateIsValid(s);
    EncodedBytes(s, Valid(s), Iterate(s).1);
    assert |Encode(0xFFFE)| == 1 && |Encode(0xFFFF)| == 1;
  }

  lemma Bits2(a: int, b: int)
    requires 0xC0 <= a < 0xE0 && 0x80 <= b < 0xC0
    ensures 0xC0 + Join2(a, b) / 0x40 == a && 0x80 + Join2(a, b) % 0x40 == b
  {
  }

  lemma Bits3(a: int, b: int, c: int)
    requires 0xE0 <= a < 0xF0 && 0x80 <= b < 0xC0 && 0x80 <= c < 0xC0
    ensures var uc := Join3(a, b, c);
            0xE0 + uc / 0x1000 == a && 0x80 + uc / 0x40 % 0x40 == b && 0x80 + uc % 0x40 == c
  {
    var (x, y, z) := (a - 0xE0, b - 0x80, c - 0x80);
    assert a % 0x10 == x && b % 0x40 == y && c % 0x40 == z;
    assert Join3(a, b, c) == (x * 0x40 + y) * 0x40 + z;
    SixBits(x * 0x40 + y, z);
    SixBits(x, y);
    DropBits(Join3(a, b, c));
  }

  lemma Bits4(a: int, b: int, c: int, d: int)
    requires 0xF0 <= a < 0xF8 && 0x80 <= b < 0xC0 && 0x80 <= c < 0xC0 && 0x80 <= d < 0xC0
    ensures var uc := Join4(a, b, c, d);
            0xF0 + uc / 0x40000 == a && 0x80 + uc / 0x1000 % 0x40 == b && 0x80 + uc / 0x40 % 0x40 == c && 0x80 + uc % 0x40 == d
  {
    Payload4(a, b, c, d);
    var (w, x, y, z) := (a - 0xF0, b - 0x80, c - 0x80, d - 0x80);
    SixBits(w * 0x1000 + x * 0x40 + y, z);
    SixBits(w * 0x40 + x, y);
    SixBits(w, x);
    DropBits(Join4(a, b, c, d));
  }

  // ---------- checking a line ----------

  /** Well-formed UTF-8 without NUL, by the grammar. */
  ghost predicate WellFormed(s: seq<Byte>)
    decreases |s|
  {
    s == [] || (s[0] != 0 && exists n {:trigger Utf8Char(s, n)} :: 0 < n <= |s| && Utf8Char(s, n) && WellFormed(s[n..]))
  }

  // What cmark_utf8proc_check makes of a line from i on: bytes at fault and NUL become U+FFFD.
  function Checked(line: seq<Byte>, i: nat): seq<Byte>
    requires i <= |line|
    decreases |line| - i
  {
    if i == |line| then []
    else if line[i] == 0 then REPLACEMENT + Checked(line, i + 1)
    else
      var v := Valid(line[i..]);
      if v > 0 then line[i..i + v] + Checked(line, i + v) else REPLACEMENT + Checked(line, i - v)
  }

  lemma {:induction false} AppendWellFormed(c: seq<Byte>, rest: seq<Byte>)
    requires c != [] && c[0] != 0 && Utf8Char(c, |c|) && WellFormed(rest)
    ensures WellFormed(c + rest)
  {
    assert (c + rest)[|c|..] == rest;
    assert Utf8Char(c + rest, |c|);
  }

  /** The output is well-formed, whatever came in. */
  lemma {:induction false} CheckedWellFormed(line: seq<Byte>, i: nat)
    requires i <= |line|
    ensures WellFormed(Checked(line, i))
    decreases |line| - i
  {
    if i < |line| {
      var v := Valid(line[i..]);
      if line[i] == 0 {
        CheckedWellFormed(line, i + 1);
        AppendWellFormed(REPLACEMENT, Checked(line, i + 1));
      } else if v > 0 {
        CheckedWellFormed(line, i + v);
        ValidIsGrammar(line[i..], v);
        assert Utf8Char(line[i..i + v], v);
        AppendWellFormed(line[i..i + v], Checked(line, i + v));
      } else {
        CheckedWellFormed(line, i - v);
        AppendWellFormed(REPLACEMENT, Checked(line, i - v));
      }
    }
  }

  lemma SameFrom(line: seq<Byte>, i: nat, n: nat)
    requires i < |line| && line[i] != 0 && 0 < n == Valid(line[i..]) && Checked(line, i + n) == line[i + n..]
    ensures Checked(line, i) == line[i..]
  {
    CheckedGood(line, i, n);
    Glue(line, i, n);
  }

  lemma CheckedGood(line: seq<Byte>, i: nat, n: nat)
    requires i < |line| && line[i] != 0 && 0 < n == Valid(line[i..])
    ensures Checked(line, i) == line[i..i + n] + Checked(line, i + n)
  {
  }

  lemma Glue(line: seq<Byte>, i: nat, n: nat)
    requires i + n <= |line|
    ensures line[i..i + n] + line[i + n..] == line[i..]
  {
  }

  /** Well-formed text without NUL, and no other, comes out as it went in. */
  lemma {:induction false} CheckedSameIfWellFormed(line: seq<Byte>, i: nat)
    requires i <= |line|
    ensures Checked(line, i) == line[i..] <==> WellFormed(line[i..])
    decreases |line| - i
  {
    if WellFormed(line[i..]) {
      if i < |line| {
        var n :| 0 < n <= |line| - i && Utf8Char(line[i..], n) && WellFormed(line[i..][n..]);
        ValidIsGrammar(line[i..], n);
        assert line[i..][n..] == line[i + n..];
        CheckedSameIfWellFormed(line, i + n);
        SameFrom(line, i, n);
      }
    } else {
      CheckedWellFormed(line, i);
    }
  }

  /** So checking twice is checking once. */
  lemma CheckedTwice(line: seq<Byte>)
    ensures Checked(Checked(line, 0), 0) == Checked(line, 0)
  {
    var once := Checked(line, 0);
    CheckedWellFormed(line, 0);
    assert once[0..] == once;
    CheckedSameIfWellFormed(once, 0);
  }

  // That a function gives the checked rest of the line, looked up only where a place is asked for.
  ghost predicate Repairs(line: seq<Byte>, text: nat -> seq<Byte>) {
    forall i: nat {:trigger Asked(line, i)} :: Asked(line, i) && i <= |line| ==> text(i) == Checked(line, i)
  }

  predicate Asked(line: seq<Byte>, i: nat) {
    true
  }

  lemma Ask(line: seq<Byte>, text: nat -> seq<Byte>, i: nat)
    requires Repairs(line, text) && i <= |line|
    ensures text(i) == Checked(line, i)
  {
    var _ := Asked(line, i);
  }

  // From org to i the bytes go through as they are.
  ghost predicate Good(line: seq<Byte>, text: nat -> seq<Byte>, org: nat, i: nat)
    requires org <= i <= |line|
  {
    text(org) == line[org..i] + text(i)
  }

  lemma GoodOn(line: seq<Byte>, text: nat -> seq<Byte>, org: nat, i: nat, n: nat)
    requires Repairs(line, text) && org <= i && i < |line| && line[i] != 0 && Good(line, text, org, i)
    requires 0 < n == Valid(line[i..])
    ensures i + n <= |line| && Good(line, text, org, i + n)
  {
    Ask(line, text, i);
    Ask(line, text, i + n);
    CheckedGood(line, i, n);
    Regroup(line, org, i, i + n, text(i + n));
  }

  lemma Fault(line: seq<Byte>, text: nat -> seq<Byte>, i: nat, n: nat)
    requires Repairs(line, text) && i < |line| && n > 0 && (if line[i] == 0 then n == 1 else Valid(line[i..]) + n == 0)
    ensures i + n <= |line| && text(i) == REPLACEMENT + text(i + n)
  {
    Ask(line, text, i);
    Ask(line, text, i + n);
  }

  lemma Regroup(line: seq<Byte>, org: nat, i: nat, j: nat, rest: seq<Byte>)
    requires org <= i <= j <= |line|
    ensures line[org..i] + (line[i..j] + rest) == line[org..j] + rest
  {
  }

  lemma AsciiValid(line: seq<Byte>, i: nat)
    requires i < |line| && line[i] < 0x80
    ensures Valid(line[i..]) == 1
  {
  }

  // One turn of the inner loop: n good bytes, or charLen bytes at fault.
  method Look(line: seq<Byte>, ghost org: nat, i: nat, ghost text: nat -> seq<Byte>) returns (n: nat, charLen: nat)
    requires Repairs(line, text) && org <= i && i < |line| && Good(line, text, org, i)
    ensures n > 0 ==> i + n <= |line| && Good(line, text, org, i + n)
    ensures n == 0 ==> 0 < charLen && i + charLen <= |line| && text(i) == REPLACEMENT + text(i + charLen)
  {
    n, charLen := 0, 0;
    if line[i] < 0x80 && line[i] != 0 {
      AsciiValid(line, i);
      GoodOn(line, text, org, i, 1);
      n := 1;
    } else if line[i] >= 0x80 {
      var v := Valid(line[i..]);
      if v < 0 {
        Fault(line, text, i, -v);
        charLen := -v;
      } else {
        GoodOn(line, text, org, i, v);
        n := v;
      }
    } else {
      Fault(line, text, i, 1);
      charLen := 1;
    }
  }

  // The inner loop of cmark_utf8proc_check: as far as the bytes are good; then charLen bytes are at fault.
  method Skim(line: seq<Byte>, org: nat, ghost text: nat -> seq<Byte>) returns (i: nat, charLen: nat)
    requires Repairs(line, text) && org <= |line|
    ensures org <= i <= |line| && Good(line, text, org, i)
    ensures i < |line| ==> 0 < charLen && i + charLen <= |line| && text(i) == REPLACEMENT + text(i + charLen)
  {
    i, charLen := org, 0;
    assert line[org..org] == [];
    while i < |line|
      invariant org <= i <= |line| && Good(line, text, org, i)
    {
      var n;
      n, charLen := Look(line, org, i, text);
      if n == 0 {
        break;
      }
      i := i + n;
    }
  }

  // A turn of the outer loop: a run of good bytes, and the bytes at fault behind it.
  method Mend(line: seq<Byte>, org: nat, ob: seq<Byte>, ghost text: nat -> seq<Byte>) returns (i: nat, more: seq<Byte>)
    requires Repairs(line, text) && org < |line|
    ensures org < i <= |line| && more + text(i) == ob + text(org)
  {
    var charLen;
    i, charLen := Skim(line, org, text);
    more := ob;
    if i > org {
      more := more + line[org..i];
    }
    GoodBytes(ob, line[org..i], text(i));
    if i < |line| {
      Rejoin(more, REPLACEMENT, text(i + charLen));
      more := more + REPLACEMENT;
      i := i + charLen;
    }
  }

  lemma GoodBytes(ob: seq<Byte>, good: seq<Byte>, rest: seq<Byte>)
    ensures (if good == [] then ob else ob + good) + rest == ob + (good + rest)
  {
  }

  /** cmark_utf8proc_check */
  method Check(line: seq<Byte>) returns (ob: seq<Byte>)
    ensures ob == Checked(line, 0)
  {
    ghost var text := (i: nat) => if i <= |line| then Checked(line, i) else [];
    ob := CheckBy(line, text);
    Ask(line, text, 0);
  }

  method CheckBy(line: seq<Byte>, ghost text: nat -> seq<Byte>) returns (ob: seq<Byte>)
    requires Repairs(line, text)
    ensures ob == text(0)
  {
    ob := [];
    var i: nat := 0;
    while i < |line|
      invariant i <= |line|
      invariant ob + text(i) == text(0)
    {
      i, ob := Mend(line, i, ob, text);
    }
    Ask(line, text, i);
  }
}
