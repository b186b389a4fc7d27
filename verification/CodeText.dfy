/** The text of a code span: S_normalize_code of inlines.c and the code span case of commonmark.c. */
module CodeText {
  import opened Common
  import opened Emphasis
  import opened CodeSpans

  // ---------- normalization on values ----------

  predicate CrLfAt(s: string, i: int) {
    0 <= i && i + 1 < |s| && s[i] == '\r' && s[i + 1] == '\n'
  }

  // What one character turns into: nothing for the CR of a CRLF, a space for any other line ending.
  function Converted(s: string, i: nat): string
    requires i < |s|
  {
    if CrLfAt(s, i) then "" else if LineEnd(s[i]) then " " else [s[i]]
  }

  function Convert(s: string, n: nat): (c: string)
    requires n <= |s|
    ensures |c| <= n
  {
    if n == 0 then "" else Convert(s, n - 1) + Converted(s, n - 1)
  }

  // What the loop of the source takes for a non-space among the first n characters: it looks at the buffer after
  // writing to it, so a line ending counts only when nothing was written over it.
  predicate Seen(s: string, n: nat)
    requires n <= |s|
  {
    n > 0 && (Seen(s, n - 1) || CrLfAt(s, n - 1) || (s[n - 1] != ' ' && !LineEnd(s[n - 1])))
  }

  function Strip1(c: string): string {
    if |c| >= 2 then c[1..|c| - 1] else ""
  }

  predicate SpaceBothEnds(c: string) {
    c != "" && c[0] == ' ' && c[|c| - 1] == ' '
  }

  function Normalize(s: string): string {
    var c := Convert(s, |s|);
    if Seen(s, |s|) && SpaceBothEnds(c) then Strip1(c) else c
  }

  predicate AllSpaces(c: string) {
    forall i | 0 <= i < |c| :: c[i] == ' '
  }

  /** Section 6.3 of the GitHub Flavored Markdown Spec: line endings become spaces, and one space goes from both ends
      unless the content is all spaces. */
  function GfmNormalize(s: string): string {
    var c := Convert(s, |s|);
    if !AllSpaces(c) && SpaceBothEnds(c) then Strip1(c) else c
  }

  ghost predicate HasCrLf(s: string, n: nat) {
    exists i | 0 <= i < n :: CrLfAt(s, i)
  }

  predicate BlankChar(ch: char) {
    ch == ' ' || LineEnd(ch)
  }

  lemma {:induction false} SeenIs(s: string, n: nat)
    requires n <= |s|
    ensures Seen(s, n) <==> HasCrLf(s, n) || exists i | 0 <= i < n :: !BlankChar(s[i])
  {
    if n > 0 {
      SeenIs(s, n - 1);
      if Seen(s, n - 1) {
        if i :| 0 <= i < n - 1 && CrLfAt(s, i) {
          assert HasCrLf(s, n);
        }
      }
    }
  }

  lemma {:induction false} ConvertSpaces(s: string, n: nat)
    requires n <= |s|
    ensures AllSpaces(Convert(s, n)) <==> forall i | 0 <= i < n :: BlankChar(s[i])
    ensures !HasCrLf(s, n) ==> |Convert(s, n)| == n && forall i | 0 <= i < n :: Convert(s, n)[i] == if LineEnd(s[i]) then ' ' else s[i]
    ensures HasCrLf(s, n) ==> |Convert(s, n)| < n
  {
    if n > 0 {
      ConvertSpaces(s, n - 1);
      var (c, d) := (Convert(s, n - 1), Converted(s, n - 1));
      if CrLfAt(s, n - 1) {
        assert HasCrLf(s, n);
        assert c + d == c;
      } else {
        assert |d| == 1 && d[0] == if LineEnd(s[n - 1]) then ' ' else s[n - 1];
        assert HasCrLf(s, n) ==> HasCrLf(s, n - 1);
        assert HasCrLf(s, n - 1) ==> HasCrLf(s, n);
        assert (c + d)[|c|] == d[0];
        forall i | 0 <= i < |c| ensures (c + d)[i] == c[i] {}
      }
    }
  }

  // A CRLF always leaves a space behind.
  lemma {:induction false} CrLfLeavesSpace(s: string, i: nat, n: nat)
    requires CrLfAt(s, i) && i + 2 <= n <= |s|
    ensures Convert(s, n) != ""
    decreases n
  {
    if n > i + 2 {
      CrLfLeavesSpace(s, i, n - 1);
    } else {
      assert Converted(s, i + 1) == " ";
    }
  }

  /** The source follows section 6.3 exactly unless the content has a CRLF and nothing but spaces and line endings. */
  lemma NormalizeIsGfm(s: string)
    ensures Normalize(s) == GfmNormalize(s) <==> !(HasCrLf(s, |s|) && forall i | 0 <= i < |s| :: BlankChar(s[i]))
  {
    SeenIs(s, |s|);
    ConvertSpaces(s, |s|);
    var c := Convert(s, |s|);
    if i: nat :| i < |s| && CrLfAt(s, i) {
      CrLfLeavesSpace(s, i, |s|);
      if AllSpaces(c) {
        assert |Strip1(c)| < |c|;
      }
    }
  }

  /** A lone CRLF: the source takes the CR for something other than a space and drops the blank that the line ending became. */
  lemma CrLfAlone()
    ensures Normalize("\r\n") != GfmNormalize("\r\n")
  {
    var s := "\r\n";
    assert CrLfAt(s, 0) && HasCrLf(s, 2);
    assert BlankChar(s[0]) && BlankChar(s[1]);
    NormalizeIsGfm(s);
  }

  // ---------- rendering ----------

  function Ticks(n: nat): string {
    Rep('`', n)
  }

  // The shortest length from k up that is no run of the code, or 32.
  ghost predicate Shortest(code: string, k: nat) {
    && 1 <= k <= 32
    && (k < 32 ==> !HasRun(code, 0, k))
    && forall m | 1 <= m < k :: HasRun(code, 0, m)
  }

  // What the C string functions see of a text: nothing from its first NUL on.
  function CString(code: string): (text: string)
    ensures '\0' !in text && ('\0' !in code ==> text == code)
  {
    if code == "" || code[0] == '\0' then "" else [code[0]] + CString(code[1..])
  }

  predicate NeedsSpaces(code: string) {
    code == "" || code[0] == '`' || code[|code| - 1] == '`' || code[0] == ' ' || code[|code| - 1] == ' '
  }

  function Padded(code: string): string {
    if NeedsSpaces(code) then " " + code + " " else code
  }

  function Render(code: string, k: nat): string {
    Ticks(k) + Padded(code) + Ticks(k)
  }

  predicate NoLineEnds(code: string) {
    forall ch | ch in code :: !LineEnd(ch)
  }

  lemma {:induction false} ConvertNoLineEnds(s: string, n: nat)
    requires n <= |s|
    ensures NoLineEnds(Convert(s, n))
    decreases n
  {
    if n > 0 {
      ConvertNoLineEnds(s, n - 1);
    }
  }

  lemma NormalizeHasNoLineEnds(s: string)
    ensures NoLineEnds(Normalize(s))
  {
    var c := Convert(s, |s|);
    ConvertNoLineEnds(s, |s|);
    assert forall ch | ch in Strip1(c) :: ch in c;
  }

  lemma PaddedChars(code: string)
    ensures NoLineEnds(code) ==> NoLineEnds(Padded(code))
    ensures AllSpaces(Padded(code)) <==> AllSpaces(code)
  {
    var (s, m) := (Padded(code), if NeedsSpaces(code) then 1 else 0);
    forall ch | ch in s ensures ch in code || ch == ' ' {}
    forall i | 0 <= i < |code| ensures s[m + i] == code[i] {}
    if AllSpaces(s) {
      forall i | 0 <= i < |code| ensures code[i] == ' ' {
        assert s[m + i] == ' ';
      }
    }
  }

  // Without line endings, conversion changes nothing.
  lemma {:induction false} PlainPrefix(s: string, n: nat)
    requires NoLineEnds(s) && n <= |s|
    ensures Convert(s, n) == s[..n]
    ensures Seen(s, n) <==> exists i | 0 <= i < n :: s[i] != ' '
  {
    if n > 0 {
      PlainPrefix(s, n - 1);
      assert s[n - 1] in s;
      assert s[..n] == s[..n - 1] + [s[n - 1]];
    }
  }

  lemma PlainConvert(s: string)
    requires NoLineEnds(s)
    ensures Convert(s, |s|) == s && (Seen(s, |s|) <==> !AllSpaces(s))
  {
    PlainPrefix(s, |s|);
    assert s[..|s|] == s;
    if i :| 0 <= i < |s| && s[i] != ' ' {
      assert !AllSpaces(s);
    }
  }

  /** Normalizing the padded code gives the code back exactly when it has no line ending and something but spaces. */
  lemma PaddedRoundTrip(code: string)
    ensures Normalize(Padded(code)) == code <==> NoLineEnds(code) && !AllSpaces(code)
  {
    var s := Padded(code);
    NormalizeHasNoLineEnds(s);
    if NoLineEnds(code) {
      PaddedChars(code);
      PlainConvert(s);
      if AllSpaces(code) {
        assert |Normalize(s)| == |code| + 2;
      } else if NeedsSpaces(code) {
        assert s[1..|s| - 1] == code;
      }
    }
  }

  lemma {:induction false} ConvertNoNul(s: string, n: nat)
    requires n <= |s| && '\0' !in s
    ensures '\0' !in Convert(s, n)
    decreases n
  {
    if n > 0 {
      ConvertNoNul(s, n - 1);
      assert s[n - 1] in s;
    }
  }

  lemma NormalizeNoNul(s: string)
    requires '\0' !in s
    ensures '\0' !in Normalize(s)
  {
    var c := Convert(s, |s|);
    ConvertNoNul(s, |s|);
    assert forall ch | ch in Strip1(c) :: ch in c;
  }

  // Of a code with NUL only a part is written.
  lemma WrittenRoundTrip(code: string)
    ensures Normalize(Padded(CString(code))) == code <==> '\0' !in code && NoLineEnds(code) && !AllSpaces(code)
  {
    NormalizeNoNul(Padded(CString(code)));
    if '\0' !in code {
      PaddedRoundTrip(code);
    }
  }
}
