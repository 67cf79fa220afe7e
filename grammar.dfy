/**
 * The pattern fragments of an artifact reference (domain, repository, tag and
 * digest), stated as predicates on strings rather than as regular expressions.
 *
 * A label is `[a-zA-Z0-9][a-zA-Z0-9-]*[a-zA-Z0-9]`. The domain fragment repeats
 * labels `{1,63}` times before and after each dot, but a concatenation of labels
 * is itself a label, so the repetition adds no strings: a domain is
 * `label ('.' label)+` and a repository is `label ('/' label)*`.
 */
module ReferenceGrammar {
  import opened Sequences

  predicate IsLetter(c: char) { 'a' <= c <= 'z' || 'A' <= c <= 'Z' }

  predicate IsDigit(c: char) { '0' <= c <= '9' }

  /** `[a-zA-Z0-9]` */
  predicate IsAlnum(c: char) { IsLetter(c) || IsDigit(c) }

  /** `\w`, restricted to ASCII: `[A-Za-z0-9_]` */
  predicate IsWord(c: char) { IsAlnum(c) || c == '_' }

  /** `[0-9A-Fa-f]` */
  predicate IsHex(c: char) { IsDigit(c) || 'a' <= c <= 'f' || 'A' <= c <= 'F' }

  /** `[a-zA-Z0-9-]`, the characters a label is made of */
  predicate IsLabelChar(c: char) { IsAlnum(c) || c == '-' }

  /** `[\w.-]`, the characters a tag is made of */
  predicate IsTagChar(c: char) { IsWord(c) || c == '.' || c == '-' }

  /** `[-_+.]`, the separators between the parts of a digest algorithm */
  predicate IsAlgorithmSeparator(c: char) { c == '-' || c == '_' || c == '+' || c == '.' }

  /** A tag is one word character and at most 127 more characters. */
  const MaxTagLength: nat := 128

  /** A digest value has at least 32 hexadecimal digits. */
  const MinDigestHexLength: nat := 32

  /** `[a-zA-Z0-9][a-zA-Z0-9-]*[a-zA-Z0-9]`: two or more characters, alphanumeric at both ends. */
  predicate IsLabel(t: string) {
    && |t| >= 2
    && IsAlnum(t[0])
    && IsAlnum(t[|t| - 1])
    && forall k | 0 <= k < |t| :: IsLabelChar(t[k])
  }

  /** The pieces of `t` between occurrences of `sep`; there is always at least one piece. */
  function Split(t: string, sep: char): (parts: seq<string>)
    ensures |parts| >= 1
    decreases |t|
  {
    if |t| == 0 then [""]
    else if t[0] == sep then [""] + Split(t[1..], sep)
    else
      var rest := Split(t[1..], sep);
      [[t[0]] + rest[0]] + rest[1..]
  }

  /** `label (sep label)*` */
  predicate IsLabelChain(t: string, sep: char) {
    forall part <- Split(t, sep) :: IsLabel(part)
  }

  /** The domain fragment: `label ('.' label)+`, so at least one dot. */
  predicate IsDomain(t: string) {
    |Split(t, '.')| >= 2 && IsLabelChain(t, '.')
  }

  /** The repository fragment: `label ('/' label)*`. */
  predicate IsRepositoryPath(t: string) {
    IsLabelChain(t, '/')
  }

  /** The tag fragment without its colon: `\w[\w.-]{0,127}`. */
  predicate IsTag(t: string) {
    && 1 <= |t| <= MaxTagLength
    && IsWord(t[0])
    && forall k | 0 <= k < |t| :: IsTagChar(t[k])
  }

  /** `[A-Za-z][A-Za-z0-9]*([-_+.][A-Za-z][A-Za-z0-9]*)*`: every separator is followed by a letter. */
  predicate IsAlgorithm(t: string) {
    && |t| >= 1
    && IsLetter(t[0])
    && (forall k | 0 <= k < |t| :: IsAlnum(t[k]) || IsAlgorithmSeparator(t[k]))
    && (forall k | 0 <= k < |t| && IsAlgorithmSeparator(t[k]) :: k + 1 < |t| && IsLetter(t[k + 1]))
  }

  predicate IsHexString(t: string) {
    forall k | 0 <= k < |t| :: IsHex(t[k])
  }

  /** The digest fragment without its at-sign: `algorithm ':' [0-9A-Fa-f]{32,}`. */
  predicate IsDigest(t: string) {
    exists k | 0 <= k < |t| :: IsDigestWithColonAt(t, k)
  }

  /** `t` is a digest whose colon is at k: an algorithm before it, 32 or more hexadecimal digits after it. */
  predicate IsDigestWithColonAt(t: string, k: nat) {
    && k < |t|
    && t[k] == ':'
    && IsAlgorithm(t[..k])
    && |t| - (k + 1) >= MinDigestHexLength
    && IsHexString(t[k + 1..])
  }

  lemma HexConcat(a: string, b: string)
    requires IsHexString(a) && IsHexString(b)
    ensures IsHexString(a + b)
  {
    forall k | 0 <= k < |a + b| ensures IsHex((a + b)[k]) {
      if k >= |a| {
        assert (a + b)[k] == b[k - |a|];
      }
    }
  }

  /** An algorithm, a colon and at least 32 hexadecimal digits make up a digest. */
  lemma DigestOfParts(a: string, h: string)
    requires IsAlgorithm(a) && IsHexString(h) && |h| >= MinDigestHexLength
    ensures IsDigest(a + [':'] + h)
  {
    var t := a + [':'] + h;
    assert t[..|a|] == a && t[|a| + 1..] == h;
    assert IsDigestWithColonAt(t, |a|);
  }

  /** Splitting at a separator splits the pieces on either side independently. */
  lemma {:induction false} SplitConcat(a: string, sep: char, b: string)
    ensures Split(a + [sep] + b, sep) == Split(a, sep) + Split(b, sep)
    decreases |a|
  {
    if |a| == 0 {
      var t := a + [sep] + b;
      assert t == [sep] + b;
      assert t[1..] == b;
    } else {
      assert (a + [sep] + b)[1..] == a[1..] + [sep] + b;
      SplitConcat(a[1..], sep, b);
      SplitConcatStep(a, sep, b);
    }
  }

  /** One step of SplitConcat: from the string without its first character to the whole string. */
  lemma SplitConcatStep(a: string, sep: char, b: string)
    requires |a| > 0
    requires Split(a[1..] + [sep] + b, sep) == Split(a[1..], sep) + Split(b, sep)
    ensures Split(a + [sep] + b, sep) == Split(a, sep) + Split(b, sep)
  {
    var t := a + [sep] + b;
    assert t[0] == a[0] && t[1..] == a[1..] + [sep] + b;
    var inner, tail := Split(a[1..], sep), Split(b, sep);
    if a[0] == sep {
      AppendAssociates([""], inner, tail);
    } else {
      HeadAndTail(inner, tail);
      AppendAssociates([[a[0]] + inner[0]], inner[1..], tail);
    }
  }

  /** A string without the separator is a single piece. */
  lemma {:induction false} SplitWithoutSeparator(t: string, sep: char)
    requires forall k | 0 <= k < |t| :: t[k] != sep
    ensures Split(t, sep) == [t]
    decreases |t|
  {
    if |t| > 0 {
      SplitWithoutSeparator(t[1..], sep);
      assert [t[0]] + t[1..] == t;
    }
  }

  /** The first piece is the longest separator-free prefix; the other pieces split the rest. */
  lemma {:induction false} SplitFirstPiece(t: string, sep: char)
    ensures var p := Split(t, sep)[0];
      && |p| <= |t|
      && p == t[..|p|]
      && (forall k | 0 <= k < |p| :: t[k] != sep)
      && (|Split(t, sep)| == 1 ==> p == t)
      && (|Split(t, sep)| > 1 ==> |p| < |t| && t[|p|] == sep && Split(t, sep)[1..] == Split(t[|p| + 1..], sep))
    decreases |t|
  {
    if |t| == 0 {
    } else if t[0] == sep {
      assert t[1..] == t[0 + 1..];
    } else {
      var rest := Split(t[1..], sep);
      SplitFirstPiece(t[1..], sep);
      var p := Split(t, sep)[0];
      assert p == [t[0]] + rest[0];
      assert t == [t[0]] + t[1..];
      if |rest| > 1 {
        assert t[1..][|rest[0]| + 1..] == t[|p| + 1..];
      }
    }
  }

  /** A label contains no separator, so it is a chain of one piece. */
  lemma LabelIsChain(t: string, sep: char)
    requires IsLabel(t) && !IsLabelChar(sep)
    ensures Split(t, sep) == [t] && IsLabelChain(t, sep)
  {
    SplitWithoutSeparator(t, sep);
  }

  /** Every character of a label chain is a label character or the separator. */
  lemma {:induction false} LabelChainChars(t: string, sep: char)
    requires IsLabelChain(t, sep)
    ensures forall k | 0 <= k < |t| :: IsLabelChar(t[k]) || t[k] == sep
    decreases |t|
  {
    SplitFirstPiece(t, sep);
    var parts := Split(t, sep);
    var p := parts[0];
    assert IsLabel(p) by { assert p in parts; }
    if |parts| > 1 {
      var rest := t[|p| + 1..];
      assert IsLabelChain(rest, sep) by {
        forall part <- Split(rest, sep) ensures IsLabel(part) {
          assert part in parts;
        }
      }
      LabelChainChars(rest, sep);
      forall k | 0 <= k < |t| ensures IsLabelChar(t[k]) || t[k] == sep {
        if k < |p| {
          assert t[k] == p[k];
        } else if k > |p| {
          assert t[k] == rest[k - |p| - 1];
        }
      }
    } else {
      assert forall k | 0 <= k < |t| :: t[k] == p[k];
    }
  }

  /** A domain contains at least one dot and otherwise only label characters. */
  lemma DomainChars(t: string)
    requires IsDomain(t)
    ensures '.' in t
    ensures forall k | 0 <= k < |t| :: IsLabelChar(t[k]) || t[k] == '.'
  {
    SplitFirstPiece(t, '.');
    LabelChainChars(t, '.');
  }

  /** A label chain is at least two characters long and starts and ends with an alphanumeric. */
  lemma {:induction false} LabelChainEnds(t: string, sep: char)
    requires IsLabelChain(t, sep)
    ensures |t| >= 2 && IsAlnum(t[0]) && IsAlnum(t[|t| - 1])
    decreases |t|
  {
    SplitFirstPiece(t, sep);
    var parts := Split(t, sep);
    var p := parts[0];
    assert IsLabel(p) by { assert p in parts; }
    assert t[0] == p[0];
    if |parts| > 1 {
      var rest := t[|p| + 1..];
      assert IsLabelChain(rest, sep) by {
        forall part <- Split(rest, sep) ensures IsLabel(part) {
          assert part in parts;
        }
      }
      LabelChainEnds(rest, sep);
      assert t[|t| - 1] == rest[|rest| - 1];
    }
  }

  /** Two label chains joined by the separator form a chain of at least two pieces. */
  lemma ChainConcat(a: string, sep: char, b: string)
    requires IsLabelChain(a, sep) && IsLabelChain(b, sep)
    ensures IsLabelChain(a + [sep] + b, sep) && |Split(a + [sep] + b, sep)| >= 2
  {
    SplitConcat(a, sep, b);
  }

  /** What follows a separator inside a label chain is a label chain. */
  lemma {:induction false} LabelChainTail(t: string, sep: char, i: nat)
    requires IsLabelChain(t, sep) && i < |t| && t[i] == sep
    ensures IsLabelChain(t[i + 1..], sep)
    decreases |t|
  {
    SplitFirstPiece(t, sep);
    var parts := Split(t, sep);
    var p := parts[0];
    assert i >= |p|;
    assert |parts| > 1;
    var rest := t[|p| + 1..];
    assert IsLabelChain(rest, sep) by {
      forall part <- Split(rest, sep) ensures IsLabel(part) {
        assert part in parts;
      }
    }
    if i > |p| {
      assert rest[i - |p| - 1] == sep;
      LabelChainTail(rest, sep, i - |p| - 1);
      assert rest[i - |p| - 1 + 1..] == t[i + 1..];
    }
  }
}
