/**
 * An artifact reference such as `my.registry.com/product/app/hello-world:v1.0`
 * or `product/app/hello-world@sha256:<hex>`, recognised by matching
 * `(domain)?/?(repository)(?:(tag)|(digest))*` at the start of the string.
 *
 * The match is anchored at the start only, so text after the recognised prefix
 * is ignored. The four groups are kept as they are and the getters return them
 * unchanged; tag and digest keep the value of the last iteration that set them.
 */
module Artifact {
  import opened Wrappers
  import opened ReferenceGrammar
  import opened ReferenceScanner

  /** The only message construction fails with; it does not mention the input. */
  const InvalidReferenceMessage: string := "Provided string doesn't represent a valid artifact reference"

  datatype ArtifactInitializationException = ArtifactInitializationException(message: string)

  /** A successful match: the optional domain, whether the optional slash was consumed, the repository and the suffix iterations. */
  datatype Match = Match(domain: Option<string>, slash: bool, repository: string, suffixes: seq<Suffix>)

  /** Where the registry ends: the length of the domain, 0 without one. */
  function DomainLength(m: Match): nat {
    if m.domain.Some? then |m.domain.value| else 0
  }

  /** Where the repository starts. */
  function RepositoryOffset(m: Match): nat {
    DomainLength(m) + if m.slash then 1 else 0
  }

  /** Where the repository ends and the suffix loop starts. */
  function RepositoryLimit(m: Match): nat {
    RepositoryOffset(m) + |m.repository|
  }

  /** The text the match consumed. */
  function MatchedText(m: Match): string {
    (if m.domain.Some? then m.domain.value else "") + (if m.slash then "/" else "") + m.repository + SuffixesText(m.suffixes)
  }

  /** No domain prefix of s, and not the empty prefix either, is followed by a repository. */
  ghost predicate NoReferenceAt(s: string) {
    !CanStartRepository(s, 0) && forall e | 0 <= e <= |s| :: !IsRegistryEnd(s, e)
  }

  /**
   * The domain group is the longest domain prefix after which a repository can
   * start, and it is absent when there is none.
   */
  ghost predicate IsRegistryChoice(s: string, domain: Option<string>) {
    if domain.Some? then
      && |domain.value| <= |s|
      && domain.value == s[..|domain.value|]
      && IsRegistryEnd(s, |domain.value|)
      && forall e | |domain.value| < e <= |s| :: !IsRegistryEnd(s, e)
    else
      forall e | 0 <= e <= |s| :: !IsRegistryEnd(s, e)
  }

  /** The optional slash after position start is consumed exactly when a label follows it. */
  ghost predicate IsSlashChoice(s: string, start: nat, slash: bool)
    requires start <= |s|
  {
    slash <==> start < |s| && s[start] == '/' && LabelStartsAt(s, start + 1)
  }

  /** `s[q..e]` is the longest repository path at q. */
  predicate IsLongestRepository(s: string, q: nat, e: nat) {
    IsRepositoryFragment(s, q, e) && forall e' | e < e' <= |s| :: !IsRepositoryFragment(s, q, e')
  }

  /**
   * m is what the pattern matches at the start of s: each piece is the one the
   * leftmost, greedy match takes, and the suffix loop runs until it stops.
   */
  ghost predicate IsGreedyMatch(s: string, m: Match) {
    && IsRegistryChoice(s, m.domain)
    && DomainLength(m) <= |s|
    && IsSlashChoice(s, DomainLength(m), m.slash)
    && IsLongestRepository(s, RepositoryOffset(m), RepositoryLimit(m))
    && m.repository == s[RepositoryOffset(m)..RepositoryLimit(m)]
    && IsSuffixLoop(s, RepositoryLimit(m), m.suffixes)
  }

  /**
   * The pattern matched at the start of s. The registry is the longest domain
   * prefix after which a repository can start; then the slash is consumed if a
   * label follows it, the longest repository path is taken and the suffix loop runs.
   */
  function MatchReference(s: string): (r: Option<Match>)
    ensures r.None? <==> NoReferenceAt(s)
    ensures r.Some? ==> IsGreedyMatch(s, r.value)
  {
    var domain := RegistryGroup(s);
    var start: nat := if domain.Some? then |domain.value| else 0;
    var repository := RepositoryStart(s, start);
    NoMatchAfterRegistry(s, domain, start);
    if repository.None? then
      None
    else
      var q: nat := repository.value;
      var e: nat := RepositoryAt(s, q);
      var xs := Suffixes(s, e);
      GreedyMatchFromParts(s, domain, start, q, e, xs);
      Some(Match(domain, q > start, s[q..e], xs))
  }

  /** The registry group: the domain prefix ending where RegistryEnd says. */
  function RegistryGroup(s: string): (domain: Option<string>)
    ensures IsRegistryChoice(s, domain)
  {
    var registry := RegistryEnd(s);
    if registry.Some? then Some(s[..registry.value]) else None
  }

  /** After the registry choice no repository can start exactly when no reference starts at all. */
  lemma NoMatchAfterRegistry(s: string, domain: Option<string>, start: nat)
    requires IsRegistryChoice(s, domain)
    requires start == if domain.Some? then |domain.value| else 0
    ensures start <= |s|
    ensures RepositoryStart(s, start).None? <==> NoReferenceAt(s)
  {
  }

  /** Where a label starts, the longest repository path starts; its end. */
  function RepositoryAt(s: string, q: nat): (e: nat)
    requires q <= |s| && LabelStartsAt(s, q)
    ensures IsLongestRepository(s, q, e)
  {
    var l := LabelEnd(s, q).value;
    LabelIsChain(s[q..l], '/');
    assert IsRepositoryFragment(s, q, l);
    RepositoryEnd(s, q).value
  }

  /** The pieces the scanners find make up the greedy match. */
  lemma GreedyMatchFromParts(s: string, domain: Option<string>, start: nat, q: nat, e: nat, xs: seq<Suffix>)
    requires IsRegistryChoice(s, domain)
    requires start == if domain.Some? then |domain.value| else 0
    requires start <= |s| && RepositoryStart(s, start) == Some(q)
    requires IsLongestRepository(s, q, e)
    requires IsSuffixLoop(s, e, xs)
    ensures IsGreedyMatch(s, Match(domain, q > start, s[q..e], xs))
  {
    var m := Match(domain, q > start, s[q..e], xs);
    assert DomainLength(m) == start;
    assert RepositoryOffset(m) == q;
    assert RepositoryLimit(m) == e;
  }

  /** The conditions of a greedy match, one by one. */
  lemma GreedyMatchIntro(s: string, m: Match)
    requires IsRegistryChoice(s, m.domain)
    requires DomainLength(m) <= |s|
    requires IsSlashChoice(s, DomainLength(m), m.slash)
    requires IsLongestRepository(s, RepositoryOffset(m), RepositoryLimit(m))
    requires m.repository == s[RepositoryOffset(m)..RepositoryLimit(m)]
    requires IsSuffixLoop(s, RepositoryLimit(m), m.suffixes)
    ensures IsGreedyMatch(s, m)
  {
  }

  /** A repository path, and so a label, starts where a label chain starts. */
  lemma ChainStartsWithLabel(s: string, i: nat, e: nat, sep: char)
    requires i <= e <= |s| && IsLabelChain(s[i..e], sep)
    ensures LabelStartsAt(s, i)
  {
    var t := s[i..e];
    SplitFirstPiece(t, sep);
    var n := |Split(t, sep)[0]|;
    assert IsLabel(Split(t, sep)[0]) by { assert Split(t, sep)[0] in Split(t, sep); }
    assert s[i..i + n] == t[..n];
  }

  /**
   * The match fails exactly when the string neither starts with a label nor with
   * a slash and a label: a registry is never needed for a match to exist.
   */
  lemma FailureCondition(s: string)
    ensures NoReferenceAt(s) <==> !CanStartRepository(s, 0)
  {
    forall e | 0 <= e <= |s| && IsRegistryEnd(s, e) ensures CanStartRepository(s, 0) {
      assert s[..e] == s[0..e];
      ChainStartsWithLabel(s, 0, e, '.');
    }
  }

  /** Any two greedy matches of the same string are the same match. */
  lemma GreedyMatchUnique(s: string, m: Match, m': Match)
    requires IsGreedyMatch(s, m) && IsGreedyMatch(s, m')
    ensures m == m'
  {
    assert m.domain == m'.domain by {
      if m.domain.Some? && m'.domain.Some? {
        assert |m.domain.value| == |m'.domain.value|;
      }
    }
    assert RepositoryLimit(m) == RepositoryLimit(m');
    SuffixLoopUnique(s, RepositoryLimit(m), m.suffixes, m'.suffixes);
  }

  /** A greedy match is what MatchReference finds. */
  lemma GreedyMatchIsTheMatch(s: string, m: Match)
    requires IsGreedyMatch(s, m)
    ensures MatchReference(s) == Some(m)
  {
    ChainStartsWithLabel(s, RepositoryOffset(m), RepositoryLimit(m), '/');
    if MatchReference(s).Some? {
      GreedyMatchUnique(s, MatchReference(s).value, m);
    }
  }

  /** `xs[k]` is a tag and no tag follows it. */
  predicate IsLastTagAt(xs: seq<Suffix>, k: nat) {
    k < |xs| && xs[k].Tag? && forall j | k < j < |xs| :: !xs[j].Tag?
  }

  /** `xs[k]` is a digest and no digest follows it. */
  predicate IsLastDigestAt(xs: seq<Suffix>, k: nat) {
    k < |xs| && xs[k].Digest? && forall j | k < j < |xs| :: !xs[j].Digest?
  }

  /**
   * The value a repeated group keeps after the loop: the tag of the last
   * iteration that matched a tag.
   */
  function LastTag(xs: seq<Suffix>): (r: Option<string>)
    ensures r.Some? ==> exists k: nat :: IsLastTagAt(xs, k) && xs[k].tag == r.value
    ensures r.None? ==> forall k | 0 <= k < |xs| :: !xs[k].Tag?
    decreases |xs|
  {
    if |xs| == 0 then None
    else if xs[|xs| - 1].Tag? then
      assert IsLastTagAt(xs, |xs| - 1);
      Some(xs[|xs| - 1].tag)
    else
      var init := xs[..|xs| - 1];
      assert forall k | 0 <= k < |init| :: init[k] == xs[k];
      assert forall k: nat | IsLastTagAt(init, k) :: IsLastTagAt(xs, k);
      LastTag(init)
  }

  /** The digest of the last iteration that matched a digest. */
  function LastDigest(xs: seq<Suffix>): (r: Option<string>)
    ensures r.Some? ==> exists k: nat :: IsLastDigestAt(xs, k) && xs[k].digest == r.value
    ensures r.None? ==> forall k | 0 <= k < |xs| :: !xs[k].Digest?
    decreases |xs|
  {
    if |xs| == 0 then None
    else if xs[|xs| - 1].Digest? then
      assert IsLastDigestAt(xs, |xs| - 1);
      Some(xs[|xs| - 1].digest)
    else
      var init := xs[..|xs| - 1];
      assert forall k | 0 <= k < |init| :: init[k] == xs[k];
      assert forall k: nat | IsLastDigestAt(init, k) :: IsLastDigestAt(xs, k);
      LastDigest(init)
  }

  /**
   * Splitting the iterations anywhere: the tag group holds the last tag of the
   * later part, and falls back to the earlier part only when the later part has none.
   */
  lemma {:induction false} LastTagOfConcat(xs: seq<Suffix>, ys: seq<Suffix>)
    ensures LastTag(xs + ys) == if LastTag(ys).Some? then LastTag(ys) else LastTag(xs)
    decreases |ys|
  {
    if |ys| == 0 {
      assert xs + ys == xs;
    } else {
      var init := ys[..|ys| - 1];
      assert (xs + ys)[..|xs + ys| - 1] == xs + init;
      assert (xs + ys)[|xs + ys| - 1] == ys[|ys| - 1];
      LastTagOfConcat(xs, init);
    }
  }

  /** The same for the digest group: the later part's last digest wins. */
  lemma {:induction false} LastDigestOfConcat(xs: seq<Suffix>, ys: seq<Suffix>)
    ensures LastDigest(xs + ys) == if LastDigest(ys).Some? then LastDigest(ys) else LastDigest(xs)
    decreases |ys|
  {
    if |ys| == 0 {
      assert xs + ys == xs;
    } else {
      var init := ys[..|ys| - 1];
      assert (xs + ys)[..|xs + ys| - 1] == xs + init;
      assert (xs + ys)[|xs + ys| - 1] == ys[|ys| - 1];
      LastDigestOfConcat(xs, init);
    }
  }

  /** The four captured groups, in pattern order. */
  datatype ReferenceGroups = ReferenceGroups(registry: Option<string>, repository: string, tag: Option<string>, sha: Option<string>)

  /** The groups of a match: a repeated group reports its last capture. */
  function Groups(m: Match): ReferenceGroups {
    ReferenceGroups(m.domain, m.repository, LastTag(m.suffixes), LastDigest(m.suffixes))
  }

  /** A reference that was recognised: the input string and the groups of its match. */
  datatype ArtifactReference = ArtifactReference(refStr: string, ref: ReferenceGroups) {

    /** The registry endpoint, the first group. */
    function GetRegistryEndpoint(): Option<string> { ref.registry }

    /** The repository, the second group. */
    function GetRepository(): string { ref.repository }

    /** The tag, the third group. */
    function GetTag(): Option<string> { ref.tag }

    /** The digest, the fourth group. */
    function GetSha(): Option<string> { ref.sha }
  }

  /**
   * Construction from a string: it fails, always with the same message, exactly
   * when the string starts neither with a label nor with a slash and a label;
   * otherwise it keeps the string and the groups of its greedy match.
   */
  function NewArtifactReference(refStr: string): (r: Result<ArtifactReference, ArtifactInitializationException>)
    ensures r.Failure? <==> !CanStartRepository(refStr, 0)
    ensures r.Failure? ==> r.error.message == InvalidReferenceMessage
    ensures r.Success? ==> r.value.refStr == refStr
    ensures r.Success? ==> exists m :: IsGreedyMatch(refStr, m) && r.value.ref == Groups(m)
  {
    FailureCondition(refStr);
    var m := MatchReference(refStr);
    if m.None? then Failure(ArtifactInitializationException(InvalidReferenceMessage))
    else Success(ArtifactReference(refStr, Groups(m.value)))
  }

  /** The getters of the reference built from s return the groups of its greedy match. */
  lemma GettersOfMatch(s: string, m: Match)
    requires IsGreedyMatch(s, m)
    ensures NewArtifactReference(s).Success?
    ensures var a := NewArtifactReference(s).value;
      && a.GetRegistryEndpoint() == m.domain
      && a.GetRepository() == m.repository
      && a.GetTag() == LastTag(m.suffixes)
      && a.GetSha() == LastDigest(m.suffixes)
  {
    GreedyMatchIsTheMatch(s, m);
    FailureCondition(s);
  }
}
