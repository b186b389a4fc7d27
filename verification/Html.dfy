/** HTML escaping and entities: houdini_html_e.c and houdini_html_u.c; a character stands for a byte. */
module Html {

  import opened Common
  import opened LabelMap
  import Utf8

  // ---------- escaping ----------

  // HTML_ESCAPES; the slash and the single quote are only escaped in secure mode.
  function EscapeChar(c: char, secure: bool): string {
    if c == '"' then "&quot;"
    else if c == '&' then "&amp;"
    else if c == '<' then "&lt;"
    else if c == '>' then "&gt;"
    else if c == '\'' && secure then "&#39;"
    else if c == '/' && secure then "&#47;"
    else [c]
  }

  // Every character replaced.
  ghost function Escape(s: string, esc: char -> string): string {
    if s == "" then "" else esc(s[0]) + Escape(s[1..], esc)
  }

  // The escapes of a mode.
  function InMode(secure: bool): char -> string {
    (c: char) => EscapeChar(c, secure)
  }

  predicate Special(c: char) {
    c == '"' || c == '&' || c == '\'' || c == '/' || c == '<' || c == '>'
  }

  ghost predicate Spares(esc: char -> string) {
    forall c :: !Special(c) ==> esc(c) == [c]
  }

  lemma {:induction false} EscapeRun(s: string, org: nat, i: nat, esc: char -> string)
    requires Spares(esc) && org <= i <= |s| && forall k :: org <= k < i ==> !Special(s[k])
    ensures Escape(s[org..], esc) == s[org..i] + Escape(s[i..], esc)
    decreases i - org
  {
    if org < i {
      EscapeRun(s, org + 1, i, esc);
      assert s[org..][1..] == s[org + 1..];
      FirstOf(s, org, i, Escape(s[i..], esc));
    }
  }

  lemma FirstOf(s: string, org: nat, i: nat, rest: string)
    requires org < i <= |s|
    ensures [s[org]] + (s[org + 1..i] + rest) == s[org..i] + rest
  {
  }

  // The loop over the bytes that need no escape.
  method SkipSafe(src: string, org: nat, ghost esc: char -> string) returns (i: nat)
    requires org <= |src| && Spares(esc)
    ensures org <= i <= |src| && Escape(src[org..], esc) == src[org..i] + Escape(src[i..], esc)
  {
    i := org;
    while i < |src| && !Special(src[i])
      invariant org <= i <= |src|
      invariant forall k :: org <= k < i ==> !Special(src[k])
    {
      i := i + 1;
    }
    EscapeRun(src, org, i, esc);
  }

  lemma EscapeAt(src: string, i: nat, esc: char -> string)
    requires i < |src|
    ensures Escape(src[i..], esc) == esc(src[i]) + Escape(src[i + 1..], esc)
  {
    assert src[i..][1..] == src[i + 1..];
  }

  // houdini_escape_html0
  method EscapeHtml(src: string, secure: bool) returns (ob: string)
    ensures ob == Escape(src, InMode(secure))
  {
    ghost var esc := InMode(secure);
    assert Spares(esc);
    ob := EscapeBy(src, secure, esc);
  }

  method EscapeBy(src: string, secure: bool, ghost esc: char -> string) returns (ob: string)
    requires Spares(esc) && forall c {:trigger EscapeChar(c, secure)} :: esc(c) == EscapeChar(c, secure)
    ensures ob == Escape(src, esc)
  {
    ob := "";
    var i: nat := 0;
    ghost var all := Escape(src, esc);
    assert src[0..] == src;
    while i < |src|
      invariant i <= |src|
      invariant ob + Escape(src[i..], esc) == all
    {
      var org := i;
      i := SkipSafe(src, org, esc);
      Rejoin(ob, src[org..i], Escape(src[i..], esc));
      if i > org {
        ob := ob + src[org..i];
      }
      if i >= |src| {
        break;
      }
      ob := EscapeOne(src, i, ob, secure, esc);
      i := i + 1;
    }
  }

  method EscapeOne(src: string, i: nat, ob: string, secure: bool, ghost esc: char -> string) returns (more: string)
    requires i < |src| && forall c {:trigger EscapeChar(c, secure)} :: esc(c) == EscapeChar(c, secure)
    ensures more + Escape(src[i + 1..], esc) == ob + Escape(src[i..], esc)
  {
    EscapeAt(src, i, esc);
    var e := EscapeChar(src[i], secure);
    Rejoin(ob, e, Escape(src[i + 1..], esc));
    more := ob + e;
  }

  // ---------- the entity table ----------

  datatype Entity = Entity(name: string, bytes: string)

  // strncmp over all of s, against a name that ends with NUL.
  function CompareHead(s: string, name: string): int {
    if s == "" then 0
    else if name == "" then s[0] as int
    else if s[0] != name[0] then s[0] as int - name[0] as int
    else CompareHead(s[1..], name[1..])
  }

  predicate NoNul(s: string) {
    forall k :: 0 <= k < |s| ==> s[k] != '\0'
  }

  lemma {:induction false} HeadDecides(s: string, name: string)
    requires NoNul(s)
    ensures CompareHead(s, name) == 0 && |name| == |s| <==> s == name
    ensures s != name ==> (CompareHead(s, name) <= 0 <==> Compare(s, name) < 0)
    decreases |s|
  {
    if s != "" && name != "" && s[0] == name[0] {
      HeadDecides(s[1..], name[1..]);
      assert s == [s[0]] + s[1..] && name == [name[0]] + name[1..];
    }
  }

  // S_lookup
  function Lookup(table: seq<Entity>, i: int, low: int, hi: int, s: string): Option<string>
    requires 0 <= low <= i <= hi < |table|
    decreases hi - low
  {
    var cmp := CompareHead(s, table[i].name);
    if cmp == 0 && |table[i].name| == |s| then Some(table[i].bytes)
    else if cmp <= 0 && i > low then
      var j := i - (i - low) / 2;
      Lookup(table, if j == i then j - 1 else j, low, i - 1, s)
    else if cmp > 0 && i < hi then
      var j := i + (hi - i) / 2;
      Lookup(table, if j == i then j + 1 else j, i + 1, hi, s)
    else None
  }

  function LookupEntity(table: seq<Entity>, s: string): Option<string> {
    if table == [] then None else Lookup(table, |table| / 2, 0, |table| - 1, s)
  }

  ghost predicate SortedTable(table: seq<Entity>) {
    forall k :: 0 <= k < |table| - 1 ==> Compare(table[k].name, table[k + 1].name) < 0
  }

  lemma {:induction false} TableRises(table: seq<Entity>, i: nat, j: nat)
    requires SortedTable(table) && i < j < |table|
    ensures Compare(table[i].name, table[j].name) < 0
    decreases j - i
  {
    if i + 1 < j {
      TableRises(table, i + 1, j);
      CompareChains(table[i].name, table[i + 1].name, table[j].name);
    }
  }

  // On which side of i a name can stand.
  lemma TableSide(table: seq<Entity>, i: nat, k: nat, s: string)
    requires SortedTable(table) && i < |table| && k < |table| && table[k].name == s != table[i].name
    ensures k < i <==> Compare(s, table[i].name) < 0
  {
    CompareFlips(s, table[i].name);
    if k < i {
      TableRises(table, k, i);
    } else {
      TableRises(table, i, k);
      CompareFlips(table[i].name, s);
    }
  }

  /** Halving finds a name exactly when it stands in the sorted table, and then gives its bytes. */
  lemma {:induction false} LookupFinds(table: seq<Entity>, i: int, low: int, hi: int, s: string)
    requires SortedTable(table) && NoNul(s) && 0 <= low <= i <= hi < |table|
    ensures forall k :: low <= k <= hi && table[k].name == s ==> Lookup(table, i, low, hi, s) == Some(table[k].bytes)
    ensures Lookup(table, i, low, hi, s).Some? ==> exists k :: low <= k <= hi && table[k].name == s
    decreases hi - low
  {
    var cmp := CompareHead(s, table[i].name);
    HeadDecides(s, table[i].name);
    forall k | low <= k <= hi && table[k].name == s ensures if s == table[i].name then k == i else (k < i <==> cmp <= 0) {
      if s != table[i].name {
        TableSide(table, i, k, s);
      } else if k < i {
        TableRises(table, k, i);
      } else if i < k {
        TableRises(table, i, k);
      }
    }
    if s != table[i].name {
      if cmp <= 0 && i > low {
        var j := i - (i - low) / 2;
        LookupFinds(table, if j == i then j - 1 else j, low, i - 1, s);
      } else if cmp > 0 && i < hi {
        var j := i + (hi - i) / 2;
        LookupFinds(table, if j == i then j + 1 else j, i + 1, hi, s);
      }
    }
  }

  // ---------- numeric references ----------

  // _isxdigit looks the byte up in a string, and so takes the NUL that ends it.
  predicate HexDigit(c: char) {
    Digit(c) || 'A' <= c <= 'F' || 'a' <= c <= 'f' || c == '\0'
  }

  // (c | 32) % 39 - 9
  function HexValue(c: char): nat
    requires HexDigit(c)
  {
    var n := c as int;
    var lower := if n / 32 % 2 == 1 then n else n + 32;
    assert Digit(c) ==> lower == n;
    lower % 39 - 9
  }

  lemma HexValues(c: char)
    requires HexDigit(c) && c != '\0'
    ensures HexValue(c) == if Digit(c) then c as int - '0' as int
                           else if c <= 'F' then c as int - 'A' as int + 10 else c as int - 'a' as int + 10
  {
  }

  const LIMIT: nat := 0x110000

  predicate InBase(c: char, hex: bool) {
    if hex then HexDigit(c) else Digit(c)
  }

  function Value(c: char, hex: bool): nat
    requires InBase(c, hex)
  {
    if hex then HexValue(c) else c as int - '0' as int
  }

  // The value of a run of digits.
  function Number(s: string, hex: bool): nat
    requires forall k :: 0 <= k < |s| ==> InBase(s[k], hex)
  {
    if s == "" then 0 else Number(s[..|s| - 1], hex) * (if hex then 16 else 10) + Value(s[|s| - 1], hex)
  }

  function Min(a: nat, b: nat): nat {
    if a < b then a else b
  }

  // Where the digits from i on end.
  function DigitsEnd(s: string, i: nat, hex: bool): (end: nat)
    requires i <= |s|
    ensures i <= end <= |s| && (end < |s| ==> !InBase(s[end], hex))
    ensures forall k :: i <= k < end ==> InBase(s[k], hex)
    decreases |s| - i
  {
    if i < |s| && InBase(s[i], hex) then DigitsEnd(s, i + 1, hex) else i
  }

  /** The digit loop: clamping keeps the number below what an int holds, and loses nothing that decides. */
  method ReadDigits(s: string, from: nat, hex: bool) returns (codepoint: nat, i: nat)
    requires from <= |s|
    ensures i == DigitsEnd(s, from, hex)
    ensures codepoint == Min(Number(s[from..i], hex), LIMIT)
  {
    i := from;
    codepoint := 0;
    while i < |s| && InBase(s[i], hex)
      invariant from <= i <= |s| && DigitsEnd(s, i, hex) == DigitsEnd(s, from, hex)
      invariant forall k :: from <= k < i ==> InBase(s[k], hex)
      invariant codepoint == Min(Number(s[from..i], hex), LIMIT)
    {
      assert s[from..i + 1][..i - from] == s[from..i];
      assert codepoint * 16 + Value(s[i], hex) < 0x7FFFFFFF;
      codepoint := codepoint * (if hex then 16 else 10) + Value(s[i], hex);
      if codepoint >= LIMIT {
        codepoint := LIMIT;
      }
      i := i + 1;
    }
  }

  // The code point of a reference whose digits have this value.
  function Repaired(value: nat): nat {
    if value == 0 || 0xD800 <= value < 0xE000 || value >= LIMIT then 0xFFFD else value
  }

  function Chars(bytes: seq<Utf8.Byte>): string {
    seq(|bytes|, k requires 0 <= k < |bytes| => bytes[k] as char)
  }

  datatype Found = Found(length: nat, text: string)

  // Nothing that can be unescaped.
  const NOTHING := Found(0, "")

  // A numeric reference behind its '&', by the exact value of its digits.
  function Numeric(s: string): (r: Found)
    requires |s| >= 3
    ensures r.length <= |s|
  {
    var hex := s[1] == 'x' || s[1] == 'X';
    var from := if hex then 2 else 1;
    var end := DigitsEnd(s, from, hex);
    if 1 <= end - from <= 8 && end < |s| && s[end] == ';'
    then Found(end + 1, Chars(Utf8.Encode(Repaired(Number(s[from..end], hex))))) else NOTHING
  }

  const MIN_LENGTH: nat := 2
  const MAX_LENGTH: nat := 32

  // The first semicolon or space from i on, no further than size.
  function NameEnd(s: string, i: nat, size: nat): (end: nat)
    requires size <= |s|
    ensures i <= end && (i <= size ==> end <= size) && (end < size ==> s[end] == ';' || s[end] == ' ')
    decreases size - i
  {
    if i >= size || s[i] == ' ' || s[i] == ';' then i else NameEnd(s, i + 1, size)
  }

  // A named reference behind its '&'.
  function Named(s: string, table: seq<Entity>): (r: Found)
    ensures r.length <= |s|
  {
    var size := Min(|s|, MAX_LENGTH);
    var end := NameEnd(s, MIN_LENGTH, size);
    if end < size && s[end] == ';' then
      match LookupEntity(table, s[..end])
      case Some(text) => Found(end + 1, text)
      case None => NOTHING
    else NOTHING
  }

  // houdini_unescape_ent
  function Reference(s: string, table: seq<Entity>): (r: Found)
    ensures r.length <= |s|
  {
    if |s| >= 3 && s[0] == '#' then Numeric(s) else Named(s, table)
  }

  method UnescapeEnt(src: string, table: seq<Entity>) returns (found: Found)
    ensures found == Reference(src, table)
  {
    if |src| >= 3 && src[0] == '#' {
      var codepoint, i, numDigits := 0, 0, 0;
      if Digit(src[1]) {
        codepoint, i := ReadDigits(src, 1, false);
        numDigits := i - 1;
      } else if src[1] == 'x' || src[1] == 'X' {
        codepoint, i := ReadDigits(src, 2, true);
        numDigits := i - 2;
      }
      if 1 <= numDigits <= 8 && i < |src| && src[i] == ';' {
        if codepoint == 0 || 0xD800 <= codepoint < 0xE000 || codepoint >= 0x110000 {
          codepoint := 0xFFFD;
        }
        return Found(i + 1, Chars(Utf8.Encode(codepoint)));
      }
    } else {
      var size := if |src| > MAX_LENGTH then MAX_LENGTH else |src|;
      var i := MIN_LENGTH;
      while i < size
        invariant NameEnd(src, i, size) == NameEnd(src, MIN_LENGTH, size)
      {
        if src[i] == ' ' {
          break;
        }
        if src[i] == ';' {
          var entity := LookupEntity(table, src[..i]);
          if entity.Some? {
            return Found(i + 1, entity.value);
          }
          break;
        }
        i := i + 1;
      }
    }
    return NOTHING;
  }

  // ---------- unescaping ----------

  // A way to read references that stays within the text.
  ghost predicate Reads(ref: string -> Found) {
    forall s :: ref(s).length <= |s|
  }

  /** The text with every reference replaced by what it stands for; an '&' that starts none stays. */
  ghost function Unescape(s: string, ref: string -> Found): string
    requires Reads(ref)
    decreases |s|
  {
    if s == "" then ""
    else if s[0] != '&' then [s[0]] + Unescape(s[1..], ref)
    else
      var r := ref(s[1..]);
      (if r.length == 0 then "&" else r.text) + Unescape(s[1..][r.length..], ref)
  }

  lemma {:induction false} UnescapeRun(s: string, org: nat, i: nat, ref: string -> Found)
    requires Reads(ref) && org <= i <= |s| && forall k :: org <= k < i ==> s[k] != '&'
    ensures Unescape(s[org..], ref) == s[org..i] + Unescape(s[i..], ref)
    decreases i - org
  {
    if org < i {
      UnescapeRun(s, org + 1, i, ref);
      assert s[org..][1..] == s[org + 1..];
      FirstOf(s, org, i, Unescape(s[i..], ref));
    }
  }

  lemma UnescapeAt(s: string, i: nat, ref: string -> Found, r: Found)
    requires Reads(ref) && i < |s| && s[i] == '&' && r == ref(s[i + 1..])
    ensures Unescape(s[i..], ref) == (if r.length == 0 then "&" else r.text) + Unescape(s[i + 1 + r.length..], ref)
  {
    assert s[i..][1..] == s[i + 1..];
    assert s[i + 1..][r.length..] == s[i + 1 + r.length..];
  }

  // The references of a table.
  function By(table: seq<Entity>): (ref: string -> Found)
    ensures Reads(ref)
  {
    (s: string) => Reference(s, table)
  }

  // The loop over the bytes that are no '&'.
  method SkipPlain(src: string, org: nat, ghost ref: string -> Found) returns (i: nat)
    requires Reads(ref) && org <= |src|
    ensures org <= i <= |src| && (i < |src| ==> src[i] == '&')
    ensures Unescape(src[org..], ref) == src[org..i] + Unescape(src[i..], ref)
  {
    i := org;
    while i < |src| && src[i] != '&'
      invariant org <= i <= |src|
      invariant forall k :: org <= k < i ==> src[k] != '&'
    {
      i := i + 1;
    }
    UnescapeRun(src, org, i, ref);
  }

  lemma Whole(src: string, ref: string -> Found)
    requires Reads(ref)
    ensures src[0..] == src && src[0..|src|] + Unescape(src[|src|..], ref) == src
  {
  }

  // The '&' at i and what hangs on it.
  method ReplaceOne(src: string, i: nat, ob: string, table: seq<Entity>, ghost ref: string -> Found) returns (next: nat, more: string)
    requires Reads(ref) && forall s {:trigger Reference(s, table)} :: ref(s) == Reference(s, table)
    requires i < |src| && src[i] == '&'
    ensures i < next <= |src| && more + Unescape(src[next..], ref) == ob + Unescape(src[i..], ref)
  {
    var ent := UnescapeEnt(src[i + 1..], table);
    UnescapeAt(src, i, ref, ent);
    next := i + 1 + ent.length;
    Rejoin(ob, if ent.length == 0 then "&" else ent.text, Unescape(src[next..], ref));
    if ent.length == 0 {
      more := ob + "&";
    } else {
      more := ob + ent.text;
    }
  }

  // houdini_unescape_html: false when there was nothing to unescape and nothing was written
  method UnescapeHtml(src: string, table: seq<Entity>, ghost ref: string -> Found) returns (changed: bool, ob: string)
    requires Reads(ref) && forall s {:trigger Reference(s, table)} :: ref(s) == Reference(s, table)
    ensures changed ==> ob == Unescape(src, ref)
    ensures !changed ==> ob == "" && Unescape(src, ref) == src
  {
    ob := "";
    var i: nat := 0;
    ghost var all := Unescape(src, ref);
    Whole(src, ref);
    while i < |src|
      invariant i <= |src|
      invariant i == 0 ==> ob == ""
      invariant ob + Unescape(src[i..], ref) == all
    {
      var org := i;
      i := SkipPlain(src, org, ref);
      Rejoin(ob, src[org..i], Unescape(src[i..], ref));
      if i > org {
        if org == 0 && i >= |src| {
          return false, "";
        }
        ob := ob + src[org..i];
      }
      if i >= |src| {
        break;
      }
      i, ob := ReplaceOne(src, i, ob, table, ref);
    }
    changed := true;
  }

  // houdini_unescape_html_f
  method UnescapeAll(src: string, table: seq<Entity>) returns (ob: string)
    ensures ob == Unescape(src, By(table))
  {
    var changed;
    changed, ob := UnescapeHtml(src, table, By(table));
    if !changed {
      ob := ob + src;
    }
  }

  // ---------- escaping and back ----------

  ghost predicate Holds(table: seq<Entity>, name: string, bytes: string) {
    exists k :: 0 <= k < |table| && table[k] == Entity(name, bytes)
  }

  // A name that the scan for its end runs through.
  predicate Scannable(name: string) {
    MIN_LENGTH <= |name| < MAX_LENGTH && NoNul(name) && forall k :: 0 <= k < |name| ==> name[k] != ' ' && name[k] != ';'
  }

  lemma {:induction false} NameEndAt(s: string, i: nat, end: nat, size: nat)
    requires i <= end < size <= |s| && s[end] == ';' && forall k :: i <= k < end ==> s[k] != ' ' && s[k] != ';'
    ensures NameEnd(s, i, size) == end
    decreases end - i
  {
    if i < end {
      NameEndAt(s, i + 1, end, size);
    }
  }

  /** A named reference gives the bytes of its name. */
  lemma NamedReads(table: seq<Entity>, name: string, bytes: string, rest: string)
    requires SortedTable(table) && Holds(table, name, bytes) && Scannable(name)
    ensures Named(name + ";" + rest, table) == Found(|name| + 1, bytes)
  {
    var s := name + ";" + rest;
    NameEndAt(s, MIN_LENGTH, |name|, Min(|s|, MAX_LENGTH));
    assert s[..|name|] == name;
    LookupFinds(table, |table| / 2, 0, |table| - 1, name);
  }

  lemma {:induction false} DigitsEndAt(s: string, i: nat, end: nat, hex: bool)
    requires i <= end < |s| && !InBase(s[end], hex) && forall k :: i <= k < end ==> InBase(s[k], hex)
    ensures DigitsEnd(s, i, hex) == end
    decreases end - i
  {
    if i < end {
      DigitsEndAt(s, i + 1, end, hex);
    }
  }

  /** A decimal reference of up to eight digits gives the code point of their value, repaired. */
  lemma DecimalReads(s: string, end: nat, value: nat)
    requires 2 <= end <= 9 && end < |s| && s[end] == ';' && forall k :: 1 <= k < end ==> Digit(s[k])
    requires value == Number(s[1..end], false)
    ensures Numeric(s) == Found(end + 1, Chars(Utf8.Encode(Repaired(value))))
  {
    assert Digit(s[1]);
    DigitsEndAt(s, 1, end, false);
  }

  function BasicName(c: char): (name: string)
    ensures Scannable(name)
  {
    if c == '"' then "quot" else if c == '&' then "amp" else if c == '<' then "lt" else "gt"
  }

  // The names that escaping writes.
  ghost predicate HoldsBasics(table: seq<Entity>) {
    forall c :: c == '"' || c == '&' || c == '<' || c == '>' ==> Holds(table, BasicName(c), [c])
  }

  lemma TwoDigits(digits: string)
    requires |digits| == 2 && Digit(digits[0]) && Digit(digits[1])
    ensures Number(digits, false) == 10 * (digits[0] as int - '0' as int) + (digits[1] as int - '0' as int)
  {
    assert digits[..1][..0] == "" && digits[..1][0] == digits[0];
    assert Number(digits[..1], false) == digits[0] as int - '0' as int;
  }

  lemma NumericToEscaped(s: string, c: char)
    requires |s| >= 4 && s[0] == '#' && s[3] == ';' && (c == '\'' || c == '/')
    requires s[1] == (if c == '/' then '4' else '3') && s[2] == (if c == '/' then '7' else '9')
    ensures Numeric(s) == Found(4, [c])
  {
    TwoDigits(s[1..3]);
    DecimalReads(s, 3, c as int);
    assert Chars(Utf8.Encode(c as int)) == [c];
  }

  lemma NamedToEscaped(table: seq<Entity>, name: string, bytes: string, rest: string)
    requires SortedTable(table) && Holds(table, name, bytes) && Scannable(name) && name[0] != '#'
    ensures Reference(name + ";" + rest, table) == Found(|name| + 1, bytes)
  {
    NamedReads(table, name, bytes, rest);
    assert (name + ";" + rest)[0] == name[0];
  }

  predicate Basic(c: char) {
    c == '"' || c == '&' || c == '<' || c == '>'
  }

  lemma BasicEscape(c: char, secure: bool, rest: string)
    requires Basic(c)
    ensures var e := EscapeChar(c, secure);
            e[0] == '&' && |e| == |BasicName(c)| + 2 && e[1..] + rest == BasicName(c) + ";" + rest && BasicName(c)[0] != '#'
  {
    var (e, name) := (EscapeChar(c, secure), BasicName(c));
    assert e[1..] == name + ";";
  }

  lemma NumericEscape(c: char, rest: string)
    requires c == '\'' || c == '/'
    ensures var e := EscapeChar(c, true);
            e[0] == '&' && |e| == 5 && Numeric(e[1..] + rest) == Found(4, [c]) && (e[1..] + rest)[0] == '#'
  {
    var t := EscapeChar(c, true)[1..] + rest;
    assert t[0] == '#' && t[3] == ';';
    NumericToEscaped(t, c);
  }

  // What stands behind the '&' of an escaped character reads as that character.
  lemma ReferenceToEscaped(c: char, secure: bool, table: seq<Entity>, rest: string)
    requires SortedTable(table) && HoldsBasics(table) && EscapeChar(c, secure) != [c]
    ensures var e := EscapeChar(c, secure);
            e[0] == '&' && Reference(e[1..] + rest, table) == Found(|e| - 1, [c])
  {
    if Basic(c) {
      BasicEscape(c, secure, rest);
      NamedToEscaped(table, BasicName(c), [c], rest);
    } else {
      NumericEscape(c, rest);
    }
  }

  lemma UnescapePlain(c: char, rest: string, ref: string -> Found)
    requires Reads(ref) && c != '&'
    ensures Unescape([c] + rest, ref) == [c] + Unescape(rest, ref)
  {
    assert ([c] + rest)[1..] == rest;
  }

  lemma UnescapeReference(e: string, c: char, rest: string, ref: string -> Found)
    requires Reads(ref) && |e| > 1 && e[0] == '&' && ref(e[1..] + rest) == Found(|e| - 1, [c])
    ensures Unescape(e + rest, ref) == [c] + Unescape(rest, ref)
  {
    assert (e + rest)[1..] == e[1..] + rest;
    assert (e[1..] + rest)[|e| - 1..] == rest;
  }

  // The character is kept, or escaped to a reference that reads as it.
  ghost predicate Undone(ref: string -> Found, e: string, c: char, rest: string) {
    (c != '&' && e == [c]) || (|e| > 1 && e[0] == '&' && ref(e[1..] + rest) == Found(|e| - 1, [c]))
  }

  lemma {:induction false} RoundTripBy(s: string, esc: char -> string, ref: string -> Found)
    requires Reads(ref) && forall c, rest :: Undone(ref, esc(c), c, rest)
    ensures Unescape(Escape(s, esc), ref) == s
    decreases |s|
  {
    if s != "" {
      var (e, rest) := (esc(s[0]), Escape(s[1..], esc));
      RoundTripBy(s[1..], esc, ref);
      assert Undone(ref, e, s[0], rest);
      if e == [s[0]] {
        UnescapePlain(s[0], rest, ref);
      } else {
        UnescapeReference(e, s[0], rest, ref);
      }
    }
  }

  /** Unescaping inverts escaping, in both modes, for every text. */
  lemma RoundTrip(s: string, secure: bool, table: seq<Entity>)
    requires SortedTable(table) && HoldsBasics(table)
    ensures Unescape(Escape(s, InMode(secure)), By(table)) == s
  {
    var (esc, ref) := (InMode(secure), By(table));
    forall c, rest ensures Undone(ref, esc(c), c, rest) {
      EscapeUndone(c, secure, table, rest);
    }
    RoundTripBy(s, esc, ref);
  }

  lemma EscapeUndone(c: char, secure: bool, table: seq<Entity>, rest: string)
    requires SortedTable(table) && HoldsBasics(table)
    ensures Undone(By(table), EscapeChar(c, secure), c, rest)
  {
    if EscapeChar(c, secure) != [c] {
      ReferenceToEscaped(c, secure, table, rest);
    }
  }
}
