/** The growing byte buffer of buffer.c; a character stands for a byte. */
module StrBuf {

  import opened Common

  const INT32_MAX: nat := 0x7FFF_FFFF

  // cmark_ispunct
  predicate Punct(c: char) {
    '!' <= c <= '/' || ':' <= c <= '@' || '[' <= c <= '`' || '{' <= c <= '~'
  }

  // ---------- the rewritings, on values ----------

  function TrimmedRight(s: string): (r: string)
    ensures |r| <= |s| && r == s[..|r|] && (r != "" ==> !Space(r[|r| - 1]))
    ensures forall k :: |r| <= k < |s| ==> Space(s[k])
  {
    if s != "" && Space(s[|s| - 1]) then TrimmedRight(s[..|s| - 1]) else s
  }

  // How much space a text begins with.
  function Leading(s: string): (n: nat)
    ensures n <= |s| && (n < |s| ==> !Space(s[n])) && forall k :: 0 <= k < n ==> Space(s[k])
  {
    if s != "" && Space(s[0]) then Leading(s[1..]) + 1 else 0
  }

  function Trimmed(s: string): string {
    TrimmedRight(s[Leading(s)..])
  }

  // Every run of space becomes one blank; inRun says that a run has begun.
  function Collapsed(s: string, inRun: bool): string {
    if s == "" then ""
    else if Space(s[0]) then (if inRun then "" else " ") + Collapsed(s[1..], true)
    else [s[0]] + Collapsed(s[1..], false)
  }

  // A backslash before punctuation goes.
  function Unescaped(s: string): string {
    if s == "" then ""
    else if s[0] == '\\' && |s| > 1 && Punct(s[1]) then [s[1]] + Unescaped(s[2..])
    else [s[0]] + Unescaped(s[1..])
  }

  // Section 6.1 of the GitHub Flavored Markdown Spec: any punctuation may be escaped.
  function Backslashed(s: string): string {
    if s == "" then "" else (if Punct(s[0]) then ['\\', s[0]] else [s[0]]) + Backslashed(s[1..])
  }

  /** Unescaping undoes a backslash before every punctuation character. */
  lemma {:induction false} UnescapeUndoes(s: string)
    ensures Unescaped(Backslashed(s)) == s
  {
    if s != "" {
      UnescapeUndoes(s[1..]);
      var rest := Backslashed(s[1..]);
      if Punct(s[0]) {
        assert (['\\', s[0]] + rest)[2..] == rest;
      } else {
        assert ([s[0]] + rest)[1..] == rest;
      }
    }
  }

  // No space but single blanks.
  predicate SingleBlanks(s: string) {
    && (forall k :: 0 <= k < |s| && Space(s[k]) ==> s[k] == ' ')
    && (forall k {:trigger s[k]} :: 0 < k < |s| && Space(s[k]) ==> !Space(Before(s, k)))
  }

  function Before(s: string, k: nat): char
    requires 0 < k <= |s|
  {
    s[k - 1]
  }

  // The text without its space.
  function Solid(s: string): string {
    if s == "" then "" else (if Space(s[0]) then "" else [s[0]]) + Solid(s[1..])
  }

  /** Collapsing leaves single blanks, none at the front inside a run, and every other character. */
  lemma {:induction false} CollapsedIsSingle(s: string, inRun: bool)
    ensures SingleBlanks(Collapsed(s, inRun)) && Solid(Collapsed(s, inRun)) == Solid(s)
    ensures inRun && Collapsed(s, inRun) != "" ==> !Space(Collapsed(s, inRun)[0])
  {
    if s != "" {
      var rest := Collapsed(s[1..], Space(s[0]));
      CollapsedIsSingle(s[1..], Space(s[0]));
      assert "" + rest == rest;
      if Space(s[0]) {
        assert (" " + rest)[1..] == rest;
      } else {
        assert ([s[0]] + rest)[1..] == rest;
      }
    }
  }

  /** A text of single blanks is left as it is, so collapsing twice is collapsing once. */
  lemma {:induction false} SingleIsCollapsed(s: string, inRun: bool)
    requires SingleBlanks(s) && (inRun && s != "" ==> !Space(s[0]))
    ensures Collapsed(s, inRun) == s
  {
    if s != "" {
      forall k | 0 < k < |s[1..]| && Space(s[1..][k]) ensures !Space(Before(s[1..], k)) {
        assert Space(s[k + 1]) && Before(s, k + 1) == s[1..][k - 1];
      }
      if |s| > 1 && Space(s[1]) {
        assert Before(s, 1) == s[0];
      }
      SingleIsCollapsed(s[1..], Space(s[0]));
      assert s == [s[0]] + s[1..];
    }
  }

  // ---------- the buffer ----------

  class Buffer {
    var ptr: array<char>
    var asize: nat
    var size: nat

    /** Once allocated, the text is shorter than the memory and ends with NUL; before, ptr is the one shared byte. */
    ghost predicate Valid()
      reads this, ptr
    {
      && (if asize == 0 then ptr.Length == 1 && size == 0 else ptr.Length == asize && size < asize)
      && asize <= INT32_MAX
      && ptr[size] == '\0'
    }

    ghost function Contents(): string
      reads this, ptr
      requires Valid()
    {
      ptr[..size]
    }

    // cmark_strbuf_init without an initial size
    constructor (initbuf: array<char>)
      requires initbuf.Length == 1 && initbuf[0] == '\0'
      ensures Valid() && asize == 0 && ptr == initbuf && Contents() == ""
    {
      ptr, asize, size := initbuf, 0, 0;
    }

    /** cmark_strbuf_grow: room for more than target bytes, or a refusal; no sum leaves the range of a 32-bit int. */
    method Grow(target: nat) returns (ok: bool)
      requires Valid() && 0 < target <= INT32_MAX
      modifies this`ptr, this`asize
      ensures Valid() && size == old(size) && Contents() == old(Contents())
      ensures ok <==> target < old(asize) || target <= INT32_MAX / 2
      ensures ok ==> target < asize
      ensures ptr == old(ptr) || fresh(ptr)
      ensures !ok ==> ptr == old(ptr) && asize == old(asize)
    {
      if target < asize {
        return true;
      }
      if target > INT32_MAX / 2 {
        return false;
      }
      var newSize := target + target / 2;
      newSize := newSize + 1;
      assert newSize + 7 <= INT32_MAX;
      newSize := (newSize + 7) / 8 * 8;
      var memory := new char[newSize](_ => '\0');
      var i := 0;
      while i < size
        invariant i <= size < newSize && size < ptr.Length
        invariant memory[..i] == ptr[..i]
        invariant forall k :: i <= k < newSize ==> memory[k] == '\0'
        modifies memory
      {
        memory[i] := ptr[i];
        i := i + 1;
      }
      ptr := memory;
      asize := newSize;
      ok := true;
    }

    /** cmark_strbuf_put: the bytes go behind the text. */
    method Put(data: string) returns (ok: bool)
      requires Valid() && size + |data| <= INT32_MAX
      modifies this, ptr
      ensures Valid() && (ptr == old(ptr) || fresh(ptr))
      ensures ok <==> data == "" || old(size + |data| < asize) || old(size) + |data| <= INT32_MAX / 2
      ensures Contents() == old(Contents()) + if ok then data else ""
    {
      if data == "" {
        return true;
      }
      ok := Grow(size + |data|);
      if !ok {
        return;
      }
      ghost var before := Contents();
      var i := 0;
      while i < |data|
        invariant i <= |data| && size + |data| < asize == ptr.Length && asize <= INT32_MAX
        invariant size == old(size) && (ptr == old(ptr) || fresh(ptr))
        invariant ptr[..size + i] == before + data[..i]
        modifies ptr
      {
        ptr[size + i] := data[i];
        i := i + 1;
      }
      size := size + |data|;
      ptr[size] := '\0';
    }

    // cmark_strbuf_truncate
    method Truncate(len: nat)
      requires Valid()
      modifies this`size, ptr
      ensures Valid() && Contents() == if len < old(size) then old(Contents())[..len] else old(Contents())
    {
      if len < size {
        size := len;
        ptr[size] := '\0';
      }
    }

    // memmove to the front
    method MoveDown(from: nat, left: nat)
      requires from + left <= ptr.Length
      modifies ptr
      ensures ptr[..left] == old(ptr[from..from + left])
    {
      var i := 0;
      while i < left
        invariant i <= left
        invariant forall k :: 0 <= k < i ==> ptr[k] == old(ptr[from + k])
        invariant forall k :: from + i <= k < from + left ==> ptr[k] == old(ptr[k])
      {
        ptr[i] := ptr[from + i];
        i := i + 1;
      }
    }

    /** cmark_strbuf_drop: the text loses its first n bytes. */
    method Drop(n: nat)
      requires Valid()
      modifies this`size, ptr
      ensures Valid() && Contents() == if n < old(size) then old(Contents())[n..] else ""
    {
      if n > 0 {
        var from := if n > size then size else n;
        MoveDown(from, size - from);
        size := size - from;
        ptr[size] := '\0';
      }
    }

    // cmark_strbuf_rtrim
    method TrimRight()
      requires Valid()
      modifies this`size, ptr
      ensures Valid() && Contents() == TrimmedRight(old(Contents()))
    {
      if size == 0 {
        return;
      }
      while size > 0
        invariant size <= old(size) && TrimmedRight(ptr[..size]) == TrimmedRight(old(Contents()))
        invariant ptr[..] == old(ptr[..])
      {
        assert ptr[..size][..size - 1] == ptr[..size - 1];
        if !Space(ptr[size - 1]) {
          break;
        }
        size := size - 1;
      }
      ptr[size] := '\0';
    }

    // cmark_strbuf_trim
    method Trim()
      requires Valid()
      modifies this`size, ptr
      ensures Valid() && Contents() == Trimmed(old(Contents()))
    {
      if size == 0 {
        return;
      }
      ghost var text := Contents();
      var i := 0;
      while i < size && Space(ptr[i])
        invariant i <= size && i + Leading(text[i..]) == Leading(text)
      {
        assert text[i..][1..] == text[i + 1..];
        i := i + 1;
      }
      Drop(i);
      TrimRight();
    }

    // One byte of the rewritten text.
    method Write(w: nat, c: char)
      requires w < ptr.Length
      modifies ptr
      ensures ptr[..w + 1] == old(ptr[..w]) + [c]
      ensures forall k :: w < k < ptr.Length ==> ptr[k] == old(ptr[k])
    {
      ptr[w] := c;
    }

    /** cmark_strbuf_normalize_whitespace: the write index never passes the read index. */
    method NormalizeWhitespace()
      requires Valid()
      modifies this`size, ptr
      ensures Valid() && Contents() == Collapsed(old(Contents()), false)
    {
      ghost var text := Contents();
      ghost var all := Collapsed(text, false);
      var lastCharWasSpace := false;
      var r, w: nat := 0, 0;
      assert text[0..] == text;
      while r < size
        invariant w <= r <= size < ptr.Length && size == |text| && ptr[size] == '\0'
        invariant ptr[..w] + Collapsed(text[r..], lastCharWasSpace) == all
        invariant forall k :: r <= k < size ==> ptr[k] == text[k]
        modifies ptr
      {
        CollapseAt(text, r, lastCharWasSpace, ptr[..w]);
        if Space(ptr[r]) {
          if !lastCharWasSpace {
            Write(w, ' ');
            w := w + 1;
            lastCharWasSpace := true;
          }
        } else {
          Write(w, ptr[r]);
          w := w + 1;
          lastCharWasSpace := false;
        }
        r := r + 1;
      }
      Truncate(w);
    }

    /** cmark_strbuf_unescape, with the NUL behind the text as the sentinel. */
    method Unescape()
      requires Valid()
      modifies this`size, ptr
      ensures Valid() && Contents() == Unescaped(old(Contents()))
    {
      ghost var text := Contents();
      ghost var all := Unescaped(text);
      var r, w: nat := 0, 0;
      assert text[0..] == text;
      while r < size
        invariant w <= r <= size < ptr.Length && size == |text| && ptr[size] == '\0'
        invariant ptr[..w] + Unescaped(text[r..]) == all
        invariant forall k :: r <= k < size ==> ptr[k] == text[k]
        modifies ptr
      {
        UnescapeAt(text, r, ptr[..w]);
        if ptr[r] == '\\' && Punct(ptr[r + 1]) {
          r := r + 1;
        }
        Write(w, ptr[r]);
        w := w + 1;
        r := r + 1;
      }
      Truncate(w);
    }
  }

  lemma CollapseAt(text: string, r: nat, inRun: bool, written: string)
    requires r < |text|
    ensures var piece := if !Space(text[r]) then [text[r]] else if inRun then "" else " ";
            written + Collapsed(text[r..], inRun) == written + piece + Collapsed(text[r + 1..], Space(text[r]))
    ensures written + "" == written
  {
    assert text[r..][1..] == text[r + 1..];
  }

  lemma UnescapeAt(text: string, r: nat, written: string)
    requires r < |text|
    ensures var n := if text[r] == '\\' && r + 1 < |text| && Punct(text[r + 1]) then 1 else 0;
            written + Unescaped(text[r..]) == written + [text[r + n]] + Unescaped(text[r + n + 1..])
  {
    assert text[r..][1..] == text[r + 1..];
    if r + 1 < |text| {
      assert text[r..][2..] == text[r + 2..] && text[r..][1] == text[r + 1];
    }
  }
}
