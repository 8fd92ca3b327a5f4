/** The e-mail format the user schema enforces, as a hand-written recogniser over
    strings. The schema's pattern reads
      local `@` domain
    where the local part is a dot-separated run of atoms or a quoted string, and the
    domain is a bracketed dotted quad or host labels ending in an alphabetic top-level
    label. Each piece below is named after the pattern fragment it stands for. */
module EmailPattern {
  import opened Seqs
  import opened JsText

  predicate IsDigit(c: char) { '0' <= c <= '9' }

  predicate IsAsciiLetter(c: char) { 'a' <= c <= 'z' || 'A' <= c <= 'Z' }

  /** `[a-zA-Z\-0-9]` */
  predicate IsLabelChar(c: char) { IsAsciiLetter(c) || IsDigit(c) || c == '-' }

  /** `[^<>()[\]\\.,;:\s@"]` */
  predicate IsAtomChar(c: char) {
    c !in "<>()[]\\.,;:@\"" && !IsSpace(c)
  }

  /** Length of the longest prefix of `s` drawn from the class `cls`. */
  function Run(s: string, cls: char -> bool): (n: nat)
    ensures n <= |s|
    ensures forall i :: 0 <= i < n ==> cls(s[i])
    ensures n == |s| || !cls(s[n])
  {
    if |s| > 0 && cls(s[0]) then 1 + Run(s[1..], cls) else 0
  }

  /** `X+(\.X+)*` for a class X without '.': a run of X is necessarily maximal, since
      only a '.' may follow it. */
  predicate Dotted(s: string, cls: char -> bool)
    decreases |s|
  {
    var n := Run(s, cls);
    n > 0 && (n == |s| || (s[n] == '.' && Dotted(s[n + 1..], cls)))
  }

  /** The same language described character by character: non-empty, every
      character in X or a dot, no dot at either end and no two dots in a row. */
  ghost predicate DottedShape(s: string, cls: char -> bool) {
    && |s| > 0 && s[0] != '.' && s[|s| - 1] != '.'
    && (forall i :: 0 <= i < |s| ==> cls(s[i]) || s[i] == '.')
    && (forall i :: 0 < i < |s| && s[i] == '.' ==> s[i - 1] != '.')
  }

  lemma {:induction false} DottedIff(s: string, cls: char -> bool)
    requires !cls('.')
    ensures Dotted(s, cls) <==> DottedShape(s, cls)
    decreases |s|
  {
    var n := Run(s, cls);
    if 0 < n < |s| && s[n] == '.' {
      var t := s[n + 1..];
      DottedIff(t, cls);
      assert forall i :: n < i < |s| ==> s[i] == t[i - n - 1];
      if DottedShape(t, cls) {
        forall i | 0 < i < |s| && s[i] == '.'
          ensures s[i - 1] != '.'
        {
          if i > n + 1 {
            assert t[i - n - 1] == '.';
          }
        }
        assert DottedShape(s, cls);
      }
      if DottedShape(s, cls) {
        assert |t| > 0;
        forall i | 0 < i < |t| && t[i] == '.'
          ensures t[i - 1] != '.'
        {
          assert s[i + n + 1] == '.';
        }
        assert DottedShape(t, cls);
      }
    }
  }

  /** Cutting `s` at `k` cuts its leading run at `k` too. */
  lemma {:induction false} RunOfPrefix(s: string, k: nat, cls: char -> bool)
    requires k <= |s|
    ensures Run(s[..k], cls) == if Run(s, cls) < k then Run(s, cls) else k
    decreases k
  {
    if k > 0 && cls(s[0]) {
      assert s[..k][1..] == s[1..][..k - 1];
      RunOfPrefix(s[1..], k - 1, cls);
    }
  }

  /** `[a-zA-Z]{2,}` */
  predicate TopLevel(s: string) {
    |s| >= 2 && forall i :: 0 <= i < |s| ==> IsAsciiLetter(s[i])
  }

  /** `([a-zA-Z\-0-9]+\.)+[a-zA-Z]{2,}`, one label at a time. */
  predicate HostName(s: string)
    decreases |s|
  {
    var n := Run(s, IsLabelChar);
    0 < n < |s| && s[n] == '.' && (TopLevel(s[n + 1..]) || HostName(s[n + 1..]))
  }

  /** Host name `s` splits at its last dot `d` into dotted labels and a top-level label. */
  ghost predicate SplitsHost(s: string, d: int) {
    0 < d < |s| && s[d] == '.' && Dotted(s[..d], IsLabelChar) && TopLevel(s[d + 1..])
  }

  /** Every host name splits at its last dot. */
  lemma {:induction false} HostNameSplits(s: string)
    requires HostName(s)
    ensures exists d :: SplitsHost(s, d)
    decreases |s|
  {
    var n := Run(s, IsLabelChar);
    var t := s[n + 1..];
    if TopLevel(t) {
      RunOfPrefix(s, n, IsLabelChar);
      assert SplitsHost(s, n);
    } else {
      HostNameSplits(t);
      var e :| SplitsHost(t, e);
      var d := n + 1 + e;
      RunOfPrefix(s, d, IsLabelChar);
      assert s[..d][n + 1..] == t[..e];
      assert s[d + 1..] == t[e + 1..];
      assert SplitsHost(s, d);
    }
  }

  /** Past its first label, a split host name still splits at the same dot. */
  lemma SplitAfterFirstLabel(s: string, d: int, n: nat)
    requires SplitsHost(s, d) && n == Run(s, IsLabelChar) && n < d
    ensures s[n] == '.' && SplitsHost(s[n + 1..], d - n - 1)
  {
    RunOfPrefix(s, d, IsLabelChar);
    var t := s[n + 1..];
    var e := d - n - 1;
    assert Run(s[..d], IsLabelChar) == n;
    assert s[..d][n] == '.';
    assert Dotted(s[..d][n + 1..], IsLabelChar);
    assert s[..d][n + 1..] == t[..e];
    assert t[e] == s[d];
    assert s[d + 1..] == t[e + 1..];
  }

  /** Every such split is a host name. */
  lemma {:induction false} SplitIsHostName(s: string, d: int)
    requires SplitsHost(s, d)
    ensures HostName(s)
    decreases |s|
  {
    var n := Run(s, IsLabelChar);
    RunOfPrefix(s, d, IsLabelChar);
    if n < d {
      SplitAfterFirstLabel(s, d, n);
      SplitIsHostName(s[n + 1..], d - n - 1);
    }
  }

  lemma HostNameIff(s: string)
    ensures HostName(s) <==> exists d :: SplitsHost(s, d)
  {
    if HostName(s) {
      HostNameSplits(s);
    }
    if exists d :: SplitsHost(s, d) {
      var d :| SplitsHost(s, d);
      SplitIsHostName(s, d);
    }
  }

  /** `[0-9]{1,3}` repeated `groups` times with single dots between. */
  predicate Octets(s: string, groups: nat)
    decreases groups
  {
    var n := Run(s, IsDigit);
    && groups > 0 && 1 <= n <= 3
    && if groups == 1 then n == |s| else n < |s| && s[n] == '.' && Octets(s[n + 1..], groups - 1)
  }

  /** `\[[0-9]{1,3}\.[0-9]{1,3}\.[0-9]{1,3}\.[0-9]{1,3}\]` */
  predicate AddressLiteral(s: string) {
    |s| >= 2 && s[0] == '[' && s[|s| - 1] == ']' && Octets(s[1..|s| - 1], 4)
  }

  predicate Domain(s: string) { AddressLiteral(s) || HostName(s) }

  /** `.(".+")`: the quoted alternative as the schema writes it, with one arbitrary
      character before the opening quote. The pattern has no `u` flag, so that `.`
      takes a single UTF-16 code unit: a character outside the Basic Multilingual
      Plane leaves its second half in front of the quote and is refused. */
  predicate QuotedAsWritten(s: string) {
    && |s| >= 4 && !IsLineTerminator(s[0]) && (s[0] as int) < 0x1_0000 && s[1] == '"' && s[|s| - 1] == '"'
    && forall i :: 2 <= i < |s| - 1 ==> !IsLineTerminator(s[i])
  }

  /** `(".+")`: a quoted local part. */
  predicate Quoted(s: string) {
    && |s| >= 3 && s[0] == '"' && s[|s| - 1] == '"'
    && forall i :: 1 <= i < |s| - 1 ==> !IsLineTerminator(s[i])
  }

  predicate LocalAsWritten(s: string) { Dotted(s, IsAtomChar) || QuotedAsWritten(s) }

  predicate Local(s: string) { Dotted(s, IsAtomChar) || Quoted(s) }

  /** The anchored pattern read as a language: some '@' of `s` separates a local
      part accepted by `local` from a domain. */
  ghost predicate SplitsAt(s: string, i: int, local: string -> bool) {
    0 <= i < |s| && s[i] == '@' && local(s[..i]) && Domain(s[i + 1..])
  }

  lemma {:induction false} OctetsHaveNoAt(s: string, groups: nat)
    requires Octets(s, groups)
    ensures forall k :: 0 <= k < |s| ==> s[k] != '@'
    decreases groups
  {
    var n := Run(s, IsDigit);
    if groups > 1 {
      OctetsHaveNoAt(s[n + 1..], groups - 1);
      assert forall k :: n < k < |s| ==> s[k] == s[n + 1..][k - n - 1];
    }
  }

  lemma {:induction false} HostNameHasNoAt(s: string)
    requires HostName(s)
    ensures forall k :: 0 <= k < |s| ==> s[k] != '@'
    ensures IsAsciiLetter(s[|s| - 1])
    decreases |s|
  {
    var n := Run(s, IsLabelChar);
    var t := s[n + 1..];
    assert forall k :: n < k < |s| ==> s[k] == t[k - n - 1];
    if !TopLevel(t) {
      HostNameHasNoAt(t);
    }
  }

  /** No domain contains an '@'. */
  lemma DomainHasNoAt(s: string)
    requires Domain(s)
    ensures forall k :: 0 <= k < |s| ==> s[k] != '@'
  {
    if AddressLiteral(s) {
      OctetsHaveNoAt(s[1..|s| - 1], 4);
      assert forall k :: 0 < k < |s| - 1 ==> s[k] == s[1..|s| - 1][k - 1];
    } else {
      HostNameHasNoAt(s);
    }
  }

  /** Index of the last '@' of `s`. */
  function LastAt(s: string): (r: Option<nat>)
    ensures r.Some? ==> r.value < |s| && s[r.value] == '@'
    ensures r.Some? ==> forall j :: r.value < j < |s| ==> s[j] != '@'
    ensures r.None? ==> forall j :: 0 <= j < |s| ==> s[j] != '@'
  {
    if |s| == 0 then None
    else if s[|s| - 1] == '@' then Some(|s| - 1)
    else LastAt(s[..|s| - 1])
  }

  /** A split, when there is one, is at the last '@', because domains have none. */
  lemma SplitIsLastAt(s: string, i: int, local: string -> bool)
    requires SplitsAt(s, i, local)
    ensures LastAt(s) == Some(i)
  {
    DomainHasNoAt(s[i + 1..]);
  }

  /** Decides the anchored pattern by splitting at the last '@'. */
  function Recognise(s: string, local: string -> bool): bool {
    match LastAt(s)
    case None => false
    case Some(i) => local(s[..i]) && Domain(s[i + 1..])
  }

  /** The recogniser accepts exactly the addresses that split into a local part and
      a domain somewhere. */
  lemma RecogniseIff(s: string, local: string -> bool)
    ensures Recognise(s, local) <==> exists i :: SplitsAt(s, i, local)
  {
    if i :| SplitsAt(s, i, local) {
      SplitIsLastAt(s, i, local);
    } else if LastAt(s).Some? {
      assert !SplitsAt(s, LastAt(s).value, local);
    }
  }

  /** The schema's pattern as it is written, stray '.' included. */
  function ValidEmailAsWritten(s: string): bool {
    Recognise(s, LocalAsWritten)
  }

  /** The schema's pattern with the quoted alternative as evidently intended; this is
      the check the rest of the model applies. */
  function ValidEmail(s: string): bool {
    Recognise(s, Local)
  }

  lemma LocalStartsClean(l: string)
    requires Local(l)
    ensures |l| > 0 && !IsSpace(l[0])
  {
    if Dotted(l, IsAtomChar) {
      assert IsAtomChar(l[0]);
    }
  }

  lemma DomainEndsClean(d: string)
    requires Domain(d)
    ensures |d| > 0 && !IsSpace(d[|d| - 1])
  {
    if HostName(d) {
      HostNameHasNoAt(d);
    }
  }

  /** A valid address has no white space at either end, so the schema's `trim`
      leaves a stored address alone. */
  lemma ValidEmailIsTrimmed(s: string)
    requires ValidEmail(s)
    ensures s != "" && Trim(s) == s
  {
    RecogniseIff(s, Local);
    var i :| SplitsAt(s, i, Local);
    var d := s[i + 1..];
    LocalStartsClean(s[..i]);
    DomainEndsClean(d);
    assert s[|s| - 1] == d[|d| - 1];
    assert s[0] == s[..i][0];
    TrimmedIsFixed(s);
  }

  /** In the dot-atom alternative the local part is atoms joined by single dots,
      and no atom holds white space or one of the specials. */
  lemma DotAtomLocal(s: string, i: int)
    requires SplitsAt(s, i, Local) && !Quoted(s[..i])
    ensures DottedShape(s[..i], IsAtomChar)
  {
    DottedIff(s[..i], IsAtomChar);
  }

  /** As written, a quoted local part is neither a dot-atom (a quote is no atom
      character) nor quoted (the quote stands where the arbitrary character goes). */
  lemma QuotedIsNotLocalAsWritten(q: string)
    requires q != [] && q[0] != '"'
    ensures !LocalAsWritten("\"" + q + "\"")
  {
    var local := "\"" + q + "\"";
    assert local[0] == '"' && local[1] == q[0];
    assert Run(local, IsAtomChar) == 0;
  }

  /** The quoted alternative as written refuses every quoted local part whose first
      quoted character is not itself a quote. */
  lemma AsWrittenRefusesQuoted(q: string, d: string)
    requires q != [] && q[0] != '"'
    requires forall k :: 0 <= k < |q| ==> !IsLineTerminator(q[k])
    requires Domain(d)
    ensures !ValidEmailAsWritten("\"" + q + "\"" + "@" + d)
  {
    var local := "\"" + q + "\"";
    var s := local + "@" + d;
    QuotedLocal(q);
    AssembledSplits(local, d, Local);
    SplitIsLastAt(s, |local|, Local);
    QuotedIsNotLocalAsWritten(q);
    assert s[..|local|] == local;
    assert !Recognise(s, LocalAsWritten);
  }

  /** A quote, at least one character other than a line terminator, and a quote. */
  lemma QuotedLocal(q: string)
    requires q != []
    requires forall k :: 0 <= k < |q| ==> !IsLineTerminator(q[k])
    ensures Quoted("\"" + q + "\"")
  {
    var local := "\"" + q + "\"";
    assert forall k :: 1 <= k < |local| - 1 ==> local[k] == q[k - 1];
  }

  /** An address assembled from a local part, an '@' and a domain splits there. */
  lemma AssembledSplits(local: string, d: string, accept: string -> bool)
    requires accept(local) && Domain(d)
    ensures SplitsAt(local + "@" + d, |local|, accept)
  {
    var s := local + "@" + d;
    assert s[..|local|] == local;
    assert s[|local| + 1..] == d;
  }

  /** The corrected alternative accepts every such quoted local part. */
  lemma AcceptsQuoted(q: string, d: string)
    requires q != []
    requires forall k :: 0 <= k < |q| ==> !IsLineTerminator(q[k])
    requires Domain(d)
    ensures ValidEmail("\"" + q + "\"" + "@" + d)
  {
    QuotedLocal(q);
    AssembledSplits("\"" + q + "\"", d, Local);
    RecogniseIff("\"" + q + "\"" + "@" + d, Local);
  }

  /** A run is as long as the prefix that stays in its class. */
  lemma {:induction false} RunIs(s: string, k: nat, cls: char -> bool)
    requires k <= |s| && (k == |s| || !cls(s[k]))
    requires forall i :: 0 <= i < k ==> cls(s[i])
    ensures Run(s, cls) == k
    decreases k
  {
    if k > 0 {
      RunIs(s[1..], k - 1, cls);
    }
  }

  /** `example.com` is a host name. */
  lemma ExampleComIsHost(s: string)
    requires s == "example.com"
    ensures HostName(s)
  {
    RunIs(s, 7, IsLabelChar);
    assert s[8..] == "com";
  }

  lemma QuotedJohnParts(s: string)
    requires s == "\"john\"@example.com"
    ensures s == s[..6] + "@" + "example.com"
    ensures Quoted(s[..6]) && !LocalAsWritten(s[..6])
  {
    var local := s[..6];
    assert local == "\"john\"";
    assert s[7..] == "example.com";
    assert Run(local, IsAtomChar) == 0;
  }

  /** The stray '.' in concrete terms: the quoted address `"john"@example.com` is
      refused as written and accepted as intended. */
  lemma QuotedCounterexample(s: string)
    requires s == "\"john\"@example.com"
    ensures !ValidEmailAsWritten(s)
    ensures ValidEmail(s)
  {
    QuotedJohnParts(s);
    ExampleComIsHost("example.com");
    AssembledSplits(s[..6], "example.com", Local);
    SplitIsLastAt(s, 6, Local);
    RecogniseIff(s, Local);
  }

  lemma PrefixedJohnParts(s: string)
    requires s == "x\"john\"@example.com"
    ensures s == s[..7] + "@" + "example.com"
    ensures QuotedAsWritten(s[..7]) && !Local(s[..7])
  {
    var local := s[..7];
    assert local == "x\"john\"";
    assert s[8..] == "example.com";
    assert Run(local[1..], IsAtomChar) == 0;
    assert Run(local, IsAtomChar) == 1;
  }

  /** ... while `x"john"@example.com`, with a stray character before the quote, is
      accepted as written and refused as intended. */
  lemma PrefixedQuoteCounterexample(s: string)
    requires s == "x\"john\"@example.com"
    ensures ValidEmailAsWritten(s)
    ensures !ValidEmail(s)
  {
    PrefixedJohnParts(s);
    ExampleComIsHost("example.com");
    AssembledSplits(s[..7], "example.com", LocalAsWritten);
    SplitIsLastAt(s, 7, LocalAsWritten);
    assert !Recognise(s, Local);
  }
}
