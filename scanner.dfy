/**
 * Scanners that find where each fragment of the reference pattern ends.
 *
 * Every quantifier and repetition in the pattern is greedy and nothing after the
 * repository fragment can make the match fail, so each scanner returns the end of
 * the LONGEST string of its fragment; its contract says so in terms of the
 * predicates of ReferenceGrammar. The only search is for the domain, whose end is
 * the longest one after which a repository can still start.
 */
module ReferenceScanner {
  import opened Wrappers
  import opened ReferenceGrammar
  import opened Sequences

  /** Some label `s[q..e]` starts at q. */
  ghost predicate LabelStartsAt(s: string, q: nat)
    requires q <= |s|
  {
    exists e | q <= e <= |s| :: IsLabel(s[q..e])
  }

  /** After position e, the optional slash and a repository can follow. */
  ghost predicate CanStartRepository(s: string, e: nat)
    requires e <= |s|
  {
    LabelStartsAt(s, e) || (e < |s| && s[e] == '/' && LabelStartsAt(s, e + 1))
  }

  /** `s[q..e]` is a repository path. */
  predicate IsRepositoryFragment(s: string, q: nat, e: nat) {
    q <= e <= |s| && IsRepositoryPath(s[q..e])
  }

  /** `s[p..e]` is a colon followed by a tag. */
  predicate IsTagFragment(s: string, p: nat, e: nat) {
    p < e <= |s| && s[p] == ':' && IsTag(s[p + 1..e])
  }

  /** `s[p..e]` is an at-sign followed by a digest. */
  predicate IsDigestFragment(s: string, p: nat, e: nat) {
    p < e <= |s| && s[p] == '@' && IsDigest(s[p + 1..e])
  }

  /** End of the longest run of characters satisfying `inClass` from i. */
  function RunEnd(s: string, i: nat, inClass: char -> bool): (j: nat)
    requires i <= |s|
    ensures i <= j <= |s|
    ensures forall k | i <= k < j :: inClass(s[k])
    ensures j == |s| || !inClass(s[j])
    decreases |s| - i
  {
    if i < |s| && inClass(s[i]) then RunEnd(s, i + 1, inClass) else i
  }

  /** The largest e in [i + 2, j] such that `s[e - 1]` is alphanumeric. */
  function LastAlnumEnd(s: string, i: nat, j: nat): (r: Option<nat>)
    requires i <= j <= |s|
    ensures r.Some? ==> i + 2 <= r.value <= j && IsAlnum(s[r.value - 1])
    ensures r.Some? ==> forall k | r.value <= k < j :: !IsAlnum(s[k])
    ensures r.None? ==> forall k | i + 1 <= k < j :: !IsAlnum(s[k])
    decreases j
  {
    if j < i + 2 then None
    else if IsAlnum(s[j - 1]) then Some(j)
    else LastAlnumEnd(s, i, j - 1)
  }

  /** End of the longest label starting at i, if a label starts there at all. */
  function LabelEnd(s: string, i: nat): (r: Option<nat>)
    requires i <= |s|
    ensures r.Some? ==> i + 2 <= r.value <= |s| && IsLabel(s[i..r.value])
    ensures r.Some? ==> forall e | r.value < e <= |s| :: !IsLabel(s[i..e])
    ensures r.None? ==> forall e | i <= e <= |s| :: !IsLabel(s[i..e])
  {
    if i < |s| && IsAlnum(s[i]) then
      var c := RunEnd(s, i, IsLabelChar);
      LabelsInRun(s, i, c);
      LastAlnumEnd(s, i, c)
    else
      None
  }

  /** Inside the run `s[i..c]` of label characters, the labels are the prefixes ending in an alphanumeric. */
  lemma LabelsInRun(s: string, i: nat, c: nat)
    requires i < c <= |s| && IsAlnum(s[i])
    requires forall k | i <= k < c :: IsLabelChar(s[k])
    requires c == |s| || !IsLabelChar(s[c])
    ensures forall e | i <= e <= c :: IsLabel(s[i..e]) <==> i + 2 <= e && IsAlnum(s[e - 1])
    ensures forall e | c < e <= |s| :: !IsLabel(s[i..e])
  {
    forall e | c < e <= |s| ensures !IsLabel(s[i..e]) {
      assert s[i..e][c - i] == s[c];
    }
  }

  /** With no label at i, no chain of labels starts at i either. */
  lemma NoLabelNoChain(s: string, i: nat, sep: char)
    requires i <= |s|
    requires forall e | i <= e <= |s| :: !IsLabel(s[i..e])
    ensures forall e | i <= e <= |s| :: !IsLabelChain(s[i..e], sep)
  {
    forall e | i <= e <= |s| ensures !IsLabelChain(s[i..e], sep) {
      var t := s[i..e];
      SplitFirstPiece(t, sep);
      var p := Split(t, sep)[0];
      assert p == s[i..i + |p|];
      assert p in Split(t, sep);
    }
  }

  /**
   * A chain that starts where the longest label `s[i..m]` starts is either a label
   * ending by m, or that label, the separator at m and a chain after it.
   */
  lemma ChainsThroughLongestLabel(s: string, i: nat, m: nat, sep: char)
    requires i < m <= |s| && IsLabel(s[i..m]) && !IsLabelChar(sep)
    requires forall e | m < e <= |s| :: !IsLabel(s[i..e])
    ensures forall e | i <= e <= m :: IsLabelChain(s[i..e], sep) <==> IsLabel(s[i..e])
    ensures forall e | i <= e <= m && IsLabelChain(s[i..e], sep) :: |Split(s[i..e], sep)| == 1
    ensures forall e | m < e <= |s| ::
      IsLabelChain(s[i..e], sep) <==> (s[m] == sep && IsLabelChain(s[m + 1..e], sep))
    ensures forall e | m < e <= |s| && IsLabelChain(s[i..e], sep) :: |Split(s[i..e], sep)| >= 2
  {
    forall e | i <= e <= |s| && IsLabelChain(s[i..e], sep)
      ensures (e <= m && IsLabel(s[i..e]) && |Split(s[i..e], sep)| == 1)
           || (m < e && s[m] == sep && IsLabelChain(s[m + 1..e], sep) && |Split(s[i..e], sep)| >= 2)
    {
      ChainStartsWithLongestLabel(s, i, m, sep, e);
    }
    forall e | i <= e <= m && IsLabel(s[i..e]) ensures IsLabelChain(s[i..e], sep) {
      LabelIsChain(s[i..e], sep);
    }
    forall e | m < e <= |s| && s[m] == sep && IsLabelChain(s[m + 1..e], sep)
      ensures IsLabelChain(s[i..e], sep)
    {
      LabelThenChain(s, i, m, sep, e);
    }
  }

  /** The longest label at i ends exactly where a label at i is followed by a separator. */
  lemma LongestLabelStopsAtSeparator(s: string, i: nat, m: nat, sep: char, a: nat)
    requires i < m <= |s| && IsLabel(s[i..m]) && !IsLabelChar(sep)
    requires forall e' | m < e' <= |s| :: !IsLabel(s[i..e'])
    requires i <= a < |s| && IsLabel(s[i..a]) && s[a] == sep
    ensures a == m
  {
    forall k | i <= k < m ensures IsLabelChar(s[k]) {
      assert s[i..m][k - i] == s[k];
    }
  }

  /** The first piece of a chain at i is a label, so it ends by m; if more follow, it ends exactly at m. */
  lemma ChainStartsWithLongestLabel(s: string, i: nat, m: nat, sep: char, e: nat)
    requires i < m <= |s| && IsLabel(s[i..m]) && !IsLabelChar(sep)
    requires forall e' | m < e' <= |s| :: !IsLabel(s[i..e'])
    requires i <= e <= |s| && IsLabelChain(s[i..e], sep)
    ensures || (e <= m && IsLabel(s[i..e]) && |Split(s[i..e], sep)| == 1)
            || (m < e && s[m] == sep && IsLabelChain(s[m + 1..e], sep) && |Split(s[i..e], sep)| >= 2)
  {
    var t := s[i..e];
    var n := ChainHead(t, sep);
    var a := i + n;
    assert IsLabel(s[i..a]) by {
      assert t[..n] == s[i..a];
    }
    if n < |t| {
      assert s[a] == sep by {
        assert t[n] == s[a];
      }
      LongestLabelStopsAtSeparator(s, i, m, sep, a);
      assert IsLabelChain(s[m + 1..e], sep) by {
        assert t[n + 1..] == s[m + 1..e];
      }
    } else {
      assert a == e;
    }
  }

  /**
   * The length n of the first piece of a chain: `t[..n]` is a label and either it is
   * all of t, which is then one piece, or the separator follows it and a chain of
   * the remaining pieces comes after.
   */
  lemma ChainHead(t: string, sep: char) returns (n: nat)
    requires IsLabelChain(t, sep)
    ensures n <= |t| && IsLabel(t[..n])
    ensures n == |t| ==> |Split(t, sep)| == 1
    ensures n < |t| ==> t[n] == sep && IsLabelChain(t[n + 1..], sep) && |Split(t, sep)| >= 2
  {
    var parts := Split(t, sep);
    SplitFirstPiece(t, sep);
    n := |parts[0]|;
    assert parts[0] in parts;
    if |parts| > 1 {
      forall part <- Split(t[n + 1..], sep) ensures IsLabel(part) {
        assert part in parts[1..];
      }
    }
  }

  /** A label, the separator and a chain make a chain of two or more pieces. */
  lemma LabelThenChain(s: string, i: nat, m: nat, sep: char, e: nat)
    requires i < m < e <= |s| && IsLabel(s[i..m]) && !IsLabelChar(sep)
    requires s[m] == sep && IsLabelChain(s[m + 1..e], sep)
    ensures IsLabelChain(s[i..e], sep) && |Split(s[i..e], sep)| >= 2
  {
    assert s[i..e] == s[i..m] + [sep] + s[m + 1..e];
    SplitConcat(s[i..m], sep, s[m + 1..e]);
    LabelIsChain(s[i..m], sep);
  }

  /**
   * End of the longest repository path `label ('/' label)*` starting at q: the
   * longest label, then `'/' label` again and again while one follows.
   */
  function RepositoryEnd(s: string, q: nat): (r: Option<nat>)
    requires q <= |s|
    ensures r.Some? ==> q + 2 <= r.value && IsRepositoryFragment(s, q, r.value)
    ensures forall e | q <= e <= |s| && IsRepositoryFragment(s, q, e) :: r.Some? && e <= r.value
    decreases |s| - q
  {
    match LabelEnd(s, q)
    case None =>
      NoLabelNoChain(s, q, '/');
      None
    case Some(m) =>
      RepositoryThroughLabel(s, q, m);
      var rest := if m < |s| && s[m] == '/' then RepositoryEnd(s, m + 1) else None;
      if rest.Some? then rest else Some(m)
  }

  /**
   * With `s[q..m]` the longest label at q, a repository path at q ending by m is a
   * label, and one ending after m is that label, a slash and a repository path at m + 1.
   */
  lemma RepositoryThroughLabel(s: string, q: nat, m: nat)
    requires q < m <= |s| && IsLabel(s[q..m])
    requires forall e | m < e <= |s| :: !IsLabel(s[q..e])
    ensures forall e | q <= e <= m :: IsRepositoryFragment(s, q, e) <==> IsLabel(s[q..e])
    ensures forall e | m < e <= |s| :: IsRepositoryFragment(s, q, e) <==> s[m] == '/' && IsRepositoryFragment(s, m + 1, e)
  {
    ChainsThroughLongestLabel(s, q, m, '/');
  }

  /** Where the repository begins after position e: the optional slash is tried first. */
  function RepositoryStart(s: string, e: nat): (r: Option<nat>)
    requires e <= |s|
    ensures r.Some? ==> e <= r.value <= |s| && LabelStartsAt(s, r.value)
    ensures r.Some? ==> r.value == e || r.value == e + 1
    ensures r.Some? ==> (r.value == e + 1 <==> e < |s| && s[e] == '/' && LabelStartsAt(s, e + 1))
    ensures r.None? <==> !CanStartRepository(s, e)
  {
    if e < |s| && s[e] == '/' then
      if LabelEnd(s, e + 1).Some? then Some(e + 1)
      else
        assert !LabelStartsAt(s, e + 1);
        assert !IsAlnum(s[e]);
        assert !LabelStartsAt(s, e) by { LabelEndAbsent(s, e); }
        None
    else if LabelEnd(s, e).Some? then Some(e)
    else None
  }

  /** No label starts where the first character is not alphanumeric. */
  lemma LabelEndAbsent(s: string, e: nat)
    requires e < |s| && !IsAlnum(s[e])
    ensures !LabelStartsAt(s, e)
  {
    forall k | e <= k <= |s| ensures !IsLabel(s[e..k]) {
      if k > e { assert s[e..k][0] == s[e]; }
    }
  }

  /** `s[i..e]` is a label after which a repository can start. */
  ghost predicate IsComponentEnd(s: string, i: nat, e: nat) {
    i <= e <= |s| && IsLabel(s[i..e]) && CanStartRepository(s, e)
  }

  /** `s[i..e]` is `label ('.' label)*` and a repository can start after it. */
  ghost predicate IsDomainTailEnd(s: string, i: nat, e: nat) {
    i <= e <= |s| && IsLabelChain(s[i..e], '.') && CanStartRepository(s, e)
  }

  /** `s[..e]` is a domain after which a repository can start. */
  ghost predicate IsRegistryEnd(s: string, e: nat) {
    e <= |s| && IsDomain(s[..e]) && CanStartRepository(s, e)
  }

  /** The largest e <= j such that `s[i..e]` is a label after which a repository can start. */
  function LastComponentEnd(s: string, i: nat, j: nat): (r: Option<nat>)
    requires i <= j <= |s|
    ensures r.Some? ==> r.value <= j && IsComponentEnd(s, i, r.value)
    ensures forall e | i <= e <= j && IsComponentEnd(s, i, e) :: r.Some? && e <= r.value
    decreases j - i
  {
    if IsLabel(s[i..j]) && RepositoryStart(s, j).Some? then Some(j)
    else if j == i then None
    else LastComponentEnd(s, i, j - 1)
  }

  /**
   * The longest end e such that `s[i..e]` is `label ('.' label)*` and a repository
   * can start at e: the later components are tried before shorter last ones.
   */
  function DomainTailEnd(s: string, i: nat): (r: Option<nat>)
    requires i <= |s|
    ensures r.Some? ==> i < r.value && IsDomainTailEnd(s, i, r.value)
    ensures r.Some? ==> forall e | r.value < e <= |s| :: !IsDomainTailEnd(s, i, e)
    ensures r.None? ==> forall e | i <= e <= |s| :: !IsDomainTailEnd(s, i, e)
    decreases |s| - i
  {
    match LabelEnd(s, i)
    case None =>
      NoDomainTail(s, i);
      None
    case Some(m) =>
      DomainTailThroughLabel(s, i, m);
      var deeper := if m < |s| && s[m] == '.' then DomainTailEnd(s, m + 1) else None;
      if deeper.Some? then deeper else LastComponentEnd(s, i, m)
  }

  /** Without a label at i no chain, and so no domain tail, starts at i. */
  lemma NoDomainTail(s: string, i: nat)
    requires i <= |s| && forall e | i <= e <= |s| :: !IsLabel(s[i..e])
    ensures forall e | i <= e <= |s| :: !IsDomainTailEnd(s, i, e)
  {
    NoLabelNoChain(s, i, '.');
  }

  /**
   * With `s[i..m]` the longest label at i, a domain tail at i ending by m is a
   * component, and one ending after m is the label, a dot and a domain tail at m + 1.
   */
  lemma DomainTailThroughLabel(s: string, i: nat, m: nat)
    requires i < m <= |s| && IsLabel(s[i..m])
    requires forall e | m < e <= |s| :: !IsLabel(s[i..e])
    ensures forall e | i <= e <= m :: IsDomainTailEnd(s, i, e) <==> IsComponentEnd(s, i, e)
    ensures forall e | m < e <= |s| :: IsDomainTailEnd(s, i, e) <==> s[m] == '.' && IsDomainTailEnd(s, m + 1, e)
  {
    ChainsThroughLongestLabel(s, i, m, '.');
  }

  /**
   * End of the registry: the longest e such that `s[..e]` is a domain and a
   * repository can start at e, or None when no domain prefix allows that.
   */
  function RegistryEnd(s: string): (r: Option<nat>)
    ensures r.Some? ==> 0 < r.value && IsRegistryEnd(s, r.value)
    ensures r.Some? ==> forall e | r.value < e <= |s| :: !IsRegistryEnd(s, e)
    ensures r.None? ==> forall e | 0 <= e <= |s| :: !IsRegistryEnd(s, e)
  {
    match LabelEnd(s, 0)
    case None =>
      NoRegistry(s);
      None
    case Some(m) =>
      RegistryThroughLabel(s, m);
      if m < |s| && s[m] == '.' then DomainTailEnd(s, m + 1) else None
  }

  /** Without a label at the start no domain prefix exists. */
  lemma NoRegistry(s: string)
    requires forall e | 0 <= e <= |s| :: !IsLabel(s[0..e])
    ensures forall e | 0 <= e <= |s| :: !IsRegistryEnd(s, e)
  {
    NoLabelNoChain(s, 0, '.');
    assert forall e | 0 <= e <= |s| :: s[..e] == s[0..e];
  }

  /**
   * With `s[..m]` the longest label at the start, a domain prefix needs a dot at m
   * and is that label, the dot and a domain tail at m + 1.
   */
  lemma RegistryThroughLabel(s: string, m: nat)
    requires 0 < m <= |s| && IsLabel(s[0..m])
    requires forall e | m < e <= |s| :: !IsLabel(s[0..e])
    ensures forall e | 0 <= e <= m :: !IsRegistryEnd(s, e)
    ensures forall e | m < e <= |s| :: IsRegistryEnd(s, e) <==> s[m] == '.' && IsDomainTailEnd(s, m + 1, e)
  {
    ChainsThroughLongestLabel(s, 0, m, '.');
    assert forall e | 0 <= e <= |s| :: s[..e] == s[0..e];
  }

  /** End of the tag after a colon at p: one word character and up to 127 more tag characters. */
  function TagEnd(s: string, p: nat): (r: Option<nat>)
    requires p <= |s|
    ensures r.Some? ==> IsTagFragment(s, p, r.value)
    ensures forall e | p <= e <= |s| && IsTagFragment(s, p, e) :: r.Some? && e <= r.value
  {
    if p + 1 < |s| && s[p] == ':' && IsWord(s[p + 1]) then
      var c := RunEnd(s, p + 1, IsTagChar);
      var r := if c < p + 1 + MaxTagLength then c else p + 1 + MaxTagLength;
      TagRun(s, p, c, r);
      Some(r)
    else
      NoTagFragment(s, p);
      None
  }

  /** The tag after a colon is the run of tag characters, cut at 128 characters. */
  lemma TagRun(s: string, p: nat, c: nat, r: nat)
    requires p + 1 < c <= |s| && s[p] == ':' && IsWord(s[p + 1])
    requires forall k | p + 1 <= k < c :: IsTagChar(s[k])
    requires c == |s| || !IsTagChar(s[c])
    requires r == if c < p + 1 + MaxTagLength then c else p + 1 + MaxTagLength
    ensures IsTagFragment(s, p, r)
    ensures forall e | r < e <= |s| :: !IsTagFragment(s, p, e)
  {
    forall e | r < e <= |s| ensures !IsTagFragment(s, p, e) {
      if r == c { assert s[p + 1..e][c - (p + 1)] == s[c]; }
    }
  }

  /** Without a colon and a word character no tag fragment starts at p. */
  lemma NoTagFragment(s: string, p: nat)
    requires p <= |s|
    requires !(p + 1 < |s| && s[p] == ':' && IsWord(s[p + 1]))
    ensures forall e | p <= e <= |s| :: !IsTagFragment(s, p, e)
  {
    forall e | p <= e <= |s| ensures !IsTagFragment(s, p, e) {
      if e > p + 1 { assert s[p + 1..e][0] == s[p + 1]; }
    }
  }

  /** End of the longest algorithm name `[A-Za-z][A-Za-z0-9]*([-_+.][A-Za-z][A-Za-z0-9]*)*` at i. */
  function AlgorithmEnd(s: string, i: nat): (r: Option<nat>)
    requires i <= |s|
    ensures r.Some? ==> i < r.value <= |s| && IsAlgorithm(s[i..r.value])
    ensures r.Some? ==> forall e | r.value < e <= |s| :: !IsAlgorithm(s[i..e])
    ensures r.None? ==> forall e | i <= e <= |s| :: !IsAlgorithm(s[i..e])
  {
    if i < |s| && IsLetter(s[i]) then
      var j := RunEnd(s, i + 1, IsAlnum);
      assert IsAlgorithm(s[i..j]) by {
        forall k | 0 <= k < j - i ensures IsAlnum(s[i..j][k]) {
          assert s[i..j][k] == s[i + k];
        }
      }
      Some(AlgorithmPartsEnd(s, i, j))
    else
      assert forall e | i <= e <= |s| :: !IsAlgorithm(s[i..e]) by {
        forall e | i <= e <= |s| ensures !IsAlgorithm(s[i..e]) {
          if e > i { assert s[i..e][0] == s[i]; }
        }
      }
      None
  }

  /** Greedy `([-_+.][A-Za-z][A-Za-z0-9]*)*` after the algorithm prefix `s[i..j]`. */
  function AlgorithmPartsEnd(s: string, i: nat, j: nat): (r: nat)
    requires i < j <= |s| && IsAlgorithm(s[i..j])
    requires j == |s| || !IsAlnum(s[j])
    ensures j <= r <= |s| && IsAlgorithm(s[i..r])
    ensures forall e | r < e <= |s| :: !IsAlgorithm(s[i..e])
    decreases |s| - j
  {
    if j + 1 < |s| && IsAlgorithmSeparator(s[j]) && IsLetter(s[j + 1]) then
      var j' := RunEnd(s, j + 2, IsAlnum);
      AlgorithmExtends(s, i, j, j');
      AlgorithmPartsEnd(s, i, j')
    else
      assert forall e | j < e <= |s| :: !IsAlgorithm(s[i..e]) by {
        forall e | j < e <= |s| ensures !IsAlgorithm(s[i..e]) {
          var t := s[i..e];
          assert t[j - i] == s[j];
          if j + 1 < e { assert t[j - i + 1] == s[j + 1]; }
        }
      }
      j
  }

  /** An algorithm followed by a separator, a letter and alphanumerics is an algorithm. */
  lemma AlgorithmExtends(s: string, i: nat, j: nat, j': nat)
    requires i < j && j + 2 <= j' <= |s| && IsAlgorithm(s[i..j])
    requires IsAlgorithmSeparator(s[j]) && IsLetter(s[j + 1])
    requires forall k | j + 2 <= k < j' :: IsAlnum(s[k])
    ensures IsAlgorithm(s[i..j'])
  {
    var t, u := s[i..j], s[i..j'];
    forall k | 0 <= k < |u| ensures u[k] == s[i + k] && (k < |t| ==> u[k] == t[k]) {}
    assert forall k | 0 <= k < |u| :: IsAlnum(u[k]) || IsAlgorithmSeparator(u[k]);
    forall k | 0 <= k < |u| && IsAlgorithmSeparator(u[k]) ensures k + 1 < |u| && IsLetter(u[k + 1]) {
      if k < |t| {
        assert IsAlgorithmSeparator(t[k]);
      }
    }
  }

  /** A digest after the at-sign at p puts its colon right after the longest algorithm `s[i..a]`. */
  lemma DigestAfterAlgorithm(s: string, p: nat, i: nat, a: nat, e: nat)
    requires i == p + 1 && i < a <= |s| && IsAlgorithm(s[i..a])
    requires forall e' | a < e' <= |s| :: !IsAlgorithm(s[i..e'])
    requires IsDigestFragment(s, p, e)
    ensures a < e && s[a] == ':' && IsHexString(s[a + 1..e]) && e - (a + 1) >= MinDigestHexLength
  {
    var k :| 0 <= k < e - i && IsDigestWithColonAt(s[i..e], k);
    DigestColonInString(s, i, e, k);
    AlgorithmStopsAtColon(s, i, a, i + k);
  }

  /** The parts of a digest `s[i..e]` whose colon is k characters in, as slices of s. */
  lemma DigestColonInString(s: string, i: nat, e: nat, k: nat)
    requires i <= e <= |s| && IsDigestWithColonAt(s[i..e], k)
    ensures i + k < e && s[i + k] == ':' && IsAlgorithm(s[i..i + k])
    ensures IsHexString(s[i + k + 1..e]) && e - (i + k + 1) >= MinDigestHexLength
  {
    var t := s[i..e];
    assert t[k] == s[i + k];
    assert t[..k] == s[i..i + k];
    assert t[k + 1..] == s[i + k + 1..e];
  }

  /** An algorithm `s[i..c]` followed by a colon ends where the longest algorithm `s[i..a]` ends. */
  lemma AlgorithmStopsAtColon(s: string, i: nat, a: nat, c: nat)
    requires i < a <= |s| && IsAlgorithm(s[i..a])
    requires forall e | a < e <= |s| :: !IsAlgorithm(s[i..e])
    requires i <= c < |s| && s[c] == ':' && IsAlgorithm(s[i..c])
    ensures c == a
  {
  }

  /** Without an algorithm after the at-sign there is no digest fragment. */
  lemma NoDigestWithoutAlgorithm(s: string, p: nat, i: nat)
    requires i == p + 1 <= |s|
    requires forall e | i <= e <= |s| :: !IsAlgorithm(s[i..e])
    ensures forall e | p <= e <= |s| :: !IsDigestFragment(s, p, e)
  {
    forall e | p <= e <= |s| ensures !IsDigestFragment(s, p, e) {
      if p < e {
        var t := s[i..e];
        forall k | 0 <= k < |t| ensures t[..k] == s[i..i + k] {}
      }
    }
  }

  /** Without a colon right after the longest algorithm there is no digest fragment. */
  lemma NoDigestWithoutColon(s: string, p: nat, i: nat, a: nat)
    requires i == p + 1 && i < a <= |s| && IsAlgorithm(s[i..a])
    requires forall e | a < e <= |s| :: !IsAlgorithm(s[i..e])
    requires !(a < |s| && s[a] == ':')
    ensures forall e | p <= e <= |s| :: !IsDigestFragment(s, p, e)
  {
    forall e | p <= e <= |s| ensures !IsDigestFragment(s, p, e) {
      if IsDigestFragment(s, p, e) { DigestAfterAlgorithm(s, p, i, a, e); }
    }
  }

  /**
   * After the at-sign at p, the longest algorithm `s[i..a]` and a colon at a, the
   * digest fragments at p end inside the run `s[a + 1..h]` of hexadecimal digits,
   * at least 32 digits in.
   */
  lemma DigestFragments(s: string, p: nat, i: nat, a: nat, h: nat)
    requires i == p + 1 && i < a < |s| && s[a] == ':'
    requires IsAlgorithm(s[i..a]) && forall e | a < e <= |s| :: !IsAlgorithm(s[i..e])
    requires a + 1 <= h <= |s| && (forall k | a + 1 <= k < h :: IsHex(s[k])) && (h == |s| || !IsHex(s[h]))
    requires s[p] == '@'
    ensures forall e | p <= e <= |s| :: IsDigestFragment(s, p, e) <==> a + 1 + MinDigestHexLength <= e <= h
  {
    forall e | p <= e <= |s| ensures IsDigestFragment(s, p, e) <==> a + 1 + MinDigestHexLength <= e <= h {
      if IsDigestFragment(s, p, e) {
        DigestAfterAlgorithm(s, p, i, a, e);
        HexRunBound(s, a + 1, h, e);
      }
      if a + 1 + MinDigestHexLength <= e <= h {
        DigestWithinHexRun(s, p, i, a, e);
      }
    }
  }

  /** Hexadecimal digits from j up to e stay inside the longest run `s[j..h]`. */
  lemma HexRunBound(s: string, j: nat, h: nat, e: nat)
    requires j <= h <= |s| && (h == |s| || !IsHex(s[h]))
    requires j <= e <= |s| && IsHexString(s[j..e])
    ensures e <= h
  {
  }

  /** The at-sign, the algorithm, the colon and 32 or more hexadecimal digits make a digest fragment. */
  lemma DigestWithinHexRun(s: string, p: nat, i: nat, a: nat, e: nat)
    requires i == p + 1 && i < a && a + 1 + MinDigestHexLength <= e <= |s|
    requires s[p] == '@' && s[a] == ':' && IsAlgorithm(s[i..a])
    requires forall k | a + 1 <= k < e :: IsHex(s[k])
    ensures IsDigestFragment(s, p, e)
  {
    var t, k := s[i..e], a - i;
    assert t[k] == ':' && t[..k] == s[i..a] && t[k + 1..] == s[a + 1..e];
    assert IsDigestWithColonAt(t, k);
  }

  /** End of the digest after an at-sign at p: algorithm, colon and the whole run of hexadecimal digits. */
  function DigestEnd(s: string, p: nat): (r: Option<nat>)
    requires p <= |s|
    ensures r.Some? ==> IsDigestFragment(s, p, r.value)
    ensures forall e | p <= e <= |s| && IsDigestFragment(s, p, e) :: r.Some? && e <= r.value
  {
    if p < |s| && s[p] == '@' then
      var algorithm := AlgorithmEnd(s, p + 1);
      if algorithm.None? then
        NoDigestWithoutAlgorithm(s, p, p + 1);
        None
      else
        var a := algorithm.value;
        if a < |s| && s[a] == ':' then
          var h := RunEnd(s, a + 1, IsHex);
          DigestFragments(s, p, p + 1, a, h);
          if h - (a + 1) >= MinDigestHexLength then Some(h) else None
        else
          NoDigestWithoutColon(s, p, p + 1, a);
          None
    else
      None
  }

  /** One iteration of the repeated suffix group: a tag after a colon or a digest after an at-sign. */
  datatype Suffix = Tag(tag: string) | Digest(digest: string)

  /** The text an iteration consumed, its colon or at-sign included. */
  function SuffixText(x: Suffix): string {
    match x
    case Tag(t) => [':'] + t
    case Digest(d) => ['@'] + d
  }

  /** The text the iterations consumed, one after the other. */
  function SuffixesText(xs: seq<Suffix>): string
    decreases |xs|
  {
    if xs == [] then "" else SuffixText(xs[0]) + SuffixesText(xs[1..])
  }

  predicate IsWellFormedSuffix(x: Suffix) {
    match x
    case Tag(t) => IsTag(t)
    case Digest(d) => IsDigest(d)
  }

  /** `s[p..e]` is the longest tag fragment at p. */
  predicate IsLongestTag(s: string, p: nat, e: nat) {
    IsTagFragment(s, p, e) && forall e' | e < e' <= |s| :: !IsTagFragment(s, p, e')
  }

  /** `s[p..e]` is the longest digest fragment at p. */
  predicate IsLongestDigest(s: string, p: nat, e: nat) {
    IsDigestFragment(s, p, e) && forall e' | e < e' <= |s| :: !IsDigestFragment(s, p, e')
  }

  /** x is the iteration the greedy loop takes at p: the longest tag or the longest digest there. */
  predicate IsIterationAt(s: string, p: nat, x: Suffix) {
    var e := p + |SuffixText(x)|;
    match x
    case Tag(t) => IsLongestTag(s, p, e) && t == s[p + 1..e]
    case Digest(d) => IsLongestDigest(s, p, e) && d == s[p + 1..e]
  }

  /** The loop stops at p: neither a tag nor a digest starts there. */
  predicate IsLoopEnd(s: string, p: nat) {
    forall e | p <= e <= |s| :: !IsTagFragment(s, p, e) && !IsDigestFragment(s, p, e)
  }

  /**
   * `xs` is a run of a loop over suffix iterations from p: `step(q, x)` says the
   * loop takes iteration x at q, the next iteration starts where x's text ends,
   * and `stop(q)` says the loop ends at q.
   */
  predicate IsRun(step: (nat, Suffix) -> bool, stop: nat -> bool, p: nat, xs: seq<Suffix>)
    decreases |xs|
  {
    if |xs| == 0 then stop(p)
    else step(p, xs[0]) && IsRun(step, stop, p + |SuffixText(xs[0])|, xs[1..])
  }

  /** The step of the repeated group `((tag)|(digest))*` of s. */
  function IterationStep(s: string): (nat, Suffix) -> bool {
    (q: nat, x: Suffix) => IsIterationAt(s, q, x)
  }

  /** Where the repeated group of s stops. */
  function LoopStop(s: string): nat -> bool {
    (q: nat) => IsLoopEnd(s, q)
  }

  /**
   * `xs` is what the repeated group `((tag)|(digest))*` matches from p: each
   * iteration takes the longest tag or digest where the previous one ended, and
   * the loop runs until neither starts.
   */
  predicate IsSuffixLoop(s: string, p: nat, xs: seq<Suffix>) {
    IsRun(IterationStep(s), LoopStop(s), p, xs)
  }

  /** The repeated group from position p, one longest tag or digest after the other. */
  function Suffixes(s: string, p: nat): (xs: seq<Suffix>)
    requires p <= |s|
    ensures IsSuffixLoop(s, p, xs)
    decreases |s| - p
  {
    var tag := TagEnd(s, p);
    if tag.Some? then
      var m := tag.value;
      var rest := Suffixes(s, m);
      TagIteration(s, p, m);
      LoopStep(s, p, m, Tag(s[p + 1..m]), rest);
      [Tag(s[p + 1..m])] + rest
    else
      var digest := DigestEnd(s, p);
      if digest.Some? then
        var m := digest.value;
        var rest := Suffixes(s, m);
        DigestIteration(s, p, m);
        LoopStep(s, p, m, Digest(s[p + 1..m]), rest);
        [Digest(s[p + 1..m])] + rest
      else
        []
  }

  /** The longest tag fragment `s[p..m]` is the iteration at p, and it ends at m. */
  lemma TagIteration(s: string, p: nat, m: nat)
    requires IsTagFragment(s, p, m)
    requires forall e | p <= e <= |s| && IsTagFragment(s, p, e) :: e <= m
    ensures IsIterationAt(s, p, Tag(s[p + 1..m])) && p + |SuffixText(Tag(s[p + 1..m]))| == m
  {
  }

  /** The longest digest fragment `s[p..m]` is the iteration at p, and it ends at m. */
  lemma DigestIteration(s: string, p: nat, m: nat)
    requires IsDigestFragment(s, p, m)
    requires forall e | p <= e <= |s| && IsDigestFragment(s, p, e) :: e <= m
    ensures IsIterationAt(s, p, Digest(s[p + 1..m])) && p + |SuffixText(Digest(s[p + 1..m]))| == m
  {
  }

  /** An iteration at p ending at m in front of a loop from m is a loop from p. */
  lemma LoopStep(s: string, p: nat, m: nat, x: Suffix, rest: seq<Suffix>)
    requires IsIterationAt(s, p, x) && p + |SuffixText(x)| == m && IsSuffixLoop(s, m, rest)
    ensures IsSuffixLoop(s, p, [x] + rest)
  {
    HeadAndTail([x], rest);
    assert IterationStep(s)(p, x);
  }

  /** The text of an iteration lies in s where the iteration starts, and the iteration is well-formed. */
  lemma IterationText(s: string, p: nat, x: Suffix)
    requires IsIterationAt(s, p, x)
    ensures OccursAt(s, p, SuffixText(x))
    ensures IsWellFormedSuffix(x)
  {
    SliceCons(s, p, p + |SuffixText(x)|);
  }

  /** The iterations of a loop from p are well-formed and their texts lie one after the other from p. */
  lemma SuffixLoopText(s: string, p: nat, xs: seq<Suffix>)
    requires p <= |s| && IsSuffixLoop(s, p, xs)
    ensures OccursAt(s, p, SuffixesText(xs))
    ensures forall x <- xs :: IsWellFormedSuffix(x)
  {
    forall q: nat, x: Suffix | IterationStep(s)(q, x) ensures OccursAt(s, q, SuffixText(x)) && IsWellFormedSuffix(x)
    {
      IterationText(s, q, x);
    }
    RunText(s, IterationStep(s), LoopStop(s), p, xs);
    RunSatisfies(IterationStep(s), LoopStop(s), p, xs, IsWellFormedSuffix);
  }

  /** A run whose every step lies in s where it starts lies in s, one iteration after the other. */
  lemma {:induction false} RunText(s: string, step: (nat, Suffix) -> bool, stop: nat -> bool, p: nat, xs: seq<Suffix>)
    requires p <= |s| && IsRun(step, stop, p, xs)
    requires forall q: nat, x: Suffix | step(q, x) :: OccursAt(s, q, SuffixText(x))
    ensures OccursAt(s, p, SuffixesText(xs))
    decreases |xs|
  {
    if |xs| > 0 {
      assert step(p, xs[0]) && IsRun(step, stop, p + |SuffixText(xs[0])|, xs[1..]);
      RunText(s, step, stop, p + |SuffixText(xs[0])|, xs[1..]);
      SlicesConcat(s, p, SuffixText(xs[0]), SuffixesText(xs[1..]));
      assert SuffixesText(xs) == SuffixText(xs[0]) + SuffixesText(xs[1..]);
    }
  }

  /** Every iteration of a run satisfies what every step guarantees. */
  lemma {:induction false} RunSatisfies(step: (nat, Suffix) -> bool, stop: nat -> bool, p: nat, xs: seq<Suffix>, good: Suffix -> bool)
    requires IsRun(step, stop, p, xs)
    requires forall q: nat, x: Suffix | step(q, x) :: good(x)
    ensures forall x <- xs :: good(x)
    decreases |xs|
  {
    if |xs| > 0 {
      RunSatisfies(step, stop, p + |SuffixText(xs[0])|, xs[1..], good);
      assert forall y <- xs :: good(y) by {
        forall y <- xs ensures good(y) {
          if y != xs[0] { assert y in xs[1..]; }
        }
      }
    }
  }

  /** Where the loop stops no iteration starts. */
  lemma LoopEndHasNoIteration(s: string, p: nat, x: Suffix)
    requires IsLoopEnd(s, p)
    ensures !IsIterationAt(s, p, x)
  {
  }

  /** At most one iteration starts at p: the first character picks tag or digest, and the longest fragment is unique. */
  lemma IterationUnique(s: string, p: nat, x: Suffix, y: Suffix)
    requires IsIterationAt(s, p, x) && IsIterationAt(s, p, y)
    ensures x == y
  {
    var e, e' := p + |SuffixText(x)|, p + |SuffixText(y)|;
    assert x.Tag? <==> y.Tag?;
    assert e == e';
  }

  /** The greedy loop is determined by the string: two loops from the same position agree. */
  lemma SuffixLoopUnique(s: string, p: nat, xs: seq<Suffix>, ys: seq<Suffix>)
    requires IsSuffixLoop(s, p, xs) && IsSuffixLoop(s, p, ys)
    ensures xs == ys
  {
    forall q: nat, x: Suffix | IterationStep(s)(q, x) ensures !LoopStop(s)(q) {
      if LoopStop(s)(q) { LoopEndHasNoIteration(s, q, x); }
    }
    forall q: nat, x: Suffix, y: Suffix | IterationStep(s)(q, x) && IterationStep(s)(q, y) ensures x == y {
      IterationUnique(s, q, x, y);
    }
    RunUnique(IterationStep(s), LoopStop(s), p, xs, ys);
  }

  /** A loop whose steps are deterministic and never start where it stops has one run from each position. */
  lemma {:induction false} RunUnique(step: (nat, Suffix) -> bool, stop: nat -> bool, p: nat, xs: seq<Suffix>, ys: seq<Suffix>)
    requires IsRun(step, stop, p, xs) && IsRun(step, stop, p, ys)
    requires forall q: nat, x: Suffix | step(q, x) :: !stop(q)
    requires forall q: nat, x: Suffix, y: Suffix | step(q, x) && step(q, y) :: x == y
    ensures xs == ys
    decreases |xs|
  {
    if |xs| > 0 && |ys| > 0 {
      RunUnique(step, stop, p + |SuffixText(xs[0])|, xs[1..], ys[1..]);
      assert xs == [xs[0]] + xs[1..] && ys == [ys[0]] + ys[1..];
    }
  }

  /**
   * A run stays a run under another loop that takes the same steps wherever the
   * first one takes them before n, when the run ends by n where the other loop stops.
   */
  lemma {:induction false} RunTransfer(step: (nat, Suffix) -> bool, stop: nat -> bool, step': (nat, Suffix) -> bool, stop': nat -> bool, p: nat, xs: seq<Suffix>, n: nat)
    requires IsRun(step, stop, p, xs)
    requires p + |SuffixesText(xs)| <= n
    requires forall q: nat, x: Suffix | step(q, x) && q + |SuffixText(x)| <= n :: step'(q, x)
    requires stop'(p + |SuffixesText(xs)|)
    ensures IsRun(step', stop', p, xs)
    decreases |xs|
  {
    if |xs| > 0 {
      assert SuffixesText(xs) == SuffixText(xs[0]) + SuffixesText(xs[1..]);
      RunTransfer(step, stop, step', stop', p + |SuffixText(xs[0])|, xs[1..], n);
    }
  }
}
