/** The pieces of JavaScript string behaviour the account model depends on: the
    white-space class shared by `String.prototype.trim` and the pattern escape `\s`,
    the line terminators that the pattern `.` refuses, and the ASCII case folding
    used by a case-insensitive search. */
module JsText {

  /** WhiteSpace or LineTerminator as ECMAScript defines them (sections 12.2 and 12.3
      of ECMA-262): the characters `trim` strips and `\s` matches. */
  predicate IsSpace(c: char) {
    || c == '\t' || c == '\n' || c == '\U{000B}' || c == '\U{000C}' || c == '\r' || c == ' '
    || c == '\U{00A0}' || c == '\U{1680}' || ('\U{2000}' <= c <= '\U{200A}')
    || c == '\U{2028}' || c == '\U{2029}' || c == '\U{202F}' || c == '\U{205F}'
    || c == '\U{3000}' || c == '\U{FEFF}'
  }

  /** The characters a pattern `.` does not match (no `s` flag). */
  predicate IsLineTerminator(c: char) {
    c == '\n' || c == '\r' || c == '\U{2028}' || c == '\U{2029}'
  }

  /** `s` without its leading white space. */
  function TrimStart(s: string): string {
    if |s| > 0 && IsSpace(s[0]) then TrimStart(s[1..]) else s
  }

  /** `s` without its trailing white space. */
  function TrimEnd(s: string): string {
    if |s| > 0 && IsSpace(s[|s| - 1]) then TrimEnd(s[..|s| - 1]) else s
  }

  /** `String.prototype.trim`. Its properties are the lemmas below, so that a proof
      that merely mentions a trimmed string does not unfold them. */
  function Trim(s: string): string {
    TrimEnd(TrimStart(s))
  }

  /** `r` sits at offset `a` of `s` and everything of `s` around it is white space. */
  ghost predicate StrippedAt(s: string, a: int, r: string) {
    && 0 <= a && a + |r| <= |s|
    && r == s[a..a + |r|]
    && (forall i :: 0 <= i < a ==> IsSpace(s[i]))
    && (forall i :: a + |r| <= i < |s| ==> IsSpace(s[i]))
  }

  /** Leading white space is a prefix of `s`, all of it white space, and what is left
      starts with something else. */
  lemma {:induction false} TrimStartStrips(s: string)
    ensures var r := TrimStart(s);
      && |r| <= |s| && r == s[|s| - |r|..]
      && (forall i :: 0 <= i < |s| - |r| ==> IsSpace(s[i]))
      && (r == [] || !IsSpace(r[0]))
    decreases |s|
  {
    if |s| > 0 && IsSpace(s[0]) {
      TrimStartStrips(s[1..]);
    }
  }

  /** Trailing white space is a suffix of `s`, all of it white space, and what is
      left ends with something else. */
  lemma {:induction false} TrimEndStrips(s: string)
    ensures var r := TrimEnd(s);
      && |r| <= |s| && r == s[..|r|]
      && (forall i :: |r| <= i < |s| ==> IsSpace(s[i]))
      && (r == [] || !IsSpace(r[|r| - 1]))
    decreases |s|
  {
    if |s| > 0 && IsSpace(s[|s| - 1]) {
      TrimEndStrips(s[..|s| - 1]);
    }
  }

  /** The trim of `s` is the slice of `s` left after stripping white space at both
      ends: it neither starts nor ends with white space, and all that was cut off is
      white space. */
  lemma TrimStrips(s: string)
    ensures var r := Trim(s);
      && (r == [] || (!IsSpace(r[0]) && !IsSpace(r[|r| - 1])))
      && exists a :: StrippedAt(s, a, r)
  {
    var t := TrimStart(s);
    TrimStartStrips(s);
    TrimEndStrips(t);
    assert StrippedAt(s, |s| - |t|, Trim(s));
  }

  /** A string that neither starts nor ends with white space is its own trim. */
  lemma TrimmedIsFixed(s: string)
    requires s == [] || (!IsSpace(s[0]) && !IsSpace(s[|s| - 1]))
    ensures Trim(s) == s
  {
    assert TrimStart(s) == s;
    assert TrimEnd(s) == s;
  }

  /** Trimming twice is trimming once, so the schema's `trim` setter may run on a
      value it already stored without changing it. */
  lemma TrimIdempotent(s: string)
    ensures Trim(Trim(s)) == Trim(s)
  {
    TrimStrips(s);
    TrimmedIsFixed(Trim(s));
  }

  /** ASCII upper case to lower case; every other character is left alone. */
  function Fold(c: char): char {
    if 'A' <= c <= 'Z' then (c as int + 32) as char else c
  }

  /** Equal up to ASCII case. */
  predicate SameFolded(a: string, b: string) {
    |a| == |b| && forall i :: 0 <= i < |a| ==> Fold(a[i]) == Fold(b[i])
  }

  /** `q` occurs in `text` starting at offset `i`, ignoring ASCII case. */
  ghost predicate OccursAt(text: string, q: string, i: int) {
    0 <= i && i + |q| <= |text| && SameFolded(text[i..i + |q|], q)
  }

  /** Case-insensitive substring search, scanning the offsets from left to right. */
  function ContainsFolded(text: string, q: string): bool
    decreases |text|
  {
    if |q| > |text| then false
    else SameFolded(text[..|q|], q) || ContainsFolded(text[1..], q)
  }

  /** The scan finds `q` exactly when it occurs at some offset. */
  lemma {:induction false} ContainsFoldedIff(text: string, q: string)
    ensures ContainsFolded(text, q) <==> exists i :: OccursAt(text, q, i)
    decreases |text|
  {
    if |q| > |text| {
      assert forall i :: !OccursAt(text, q, i);
    } else if SameFolded(text[..|q|], q) {
      assert OccursAt(text, q, 0);
    } else {
      ContainsFoldedIff(text[1..], q);
      if ContainsFolded(text[1..], q) {
        var i :| OccursAt(text[1..], q, i);
        assert text[1..][i..i + |q|] == text[i + 1..i + 1 + |q|];
        assert OccursAt(text, q, i + 1);
      } else {
        forall i | OccursAt(text, q, i)
          ensures false
        {
          if i > 0 {
            assert text[1..][i - 1..i - 1 + |q|] == text[i..i + |q|];
            assert OccursAt(text[1..], q, i - 1);
          }
        }
      }
    }
  }
}
