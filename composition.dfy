/**
 * The pattern read backwards: text assembled from a registry domain, a
 * repository path and any well-formed tags and digests is matched back into
 * exactly those groups.
 */
module ReferenceComposition {
  import opened Wrappers
  import opened Sequences
  import opened ReferenceGrammar
  import opened ReferenceScanner
  import opened Artifact
  import opened ReferenceProperties

  /** The match whose groups are the given registry, repository and suffixes; a registry brings its slash. */
  function Assembled(registry: Option<string>, repository: string, suffixes: seq<Suffix>): (m: Match)
    ensures m.domain == registry && m.repository == repository && m.suffixes == suffixes
    ensures m.slash <==> registry.Some?
  {
    Match(registry, registry.Some?, repository, suffixes)
  }

  /** The text of suffixes starts with a colon or an at-sign, unless there are none. */
  lemma SuffixesTextStart(xs: seq<Suffix>)
    ensures |xs| == 0 <==> |SuffixesText(xs)| == 0
    ensures |xs| > 0 ==> SuffixesText(xs)[0] == ':' || SuffixesText(xs)[0] == '@'
  {
    if |xs| > 0 {
      assert SuffixesText(xs) == SuffixText(xs[0]) + SuffixesText(xs[1..]);
    }
  }

  /** From p on, s is exactly the text of the suffixes xs. */
  predicate EndsWithSuffixes(s: string, p: nat, xs: seq<Suffix>) {
    OccursAt(s, p, SuffixesText(xs)) && p + |SuffixesText(xs)| == |s|
  }

  /** The text from q onwards cannot continue a tag or a digest that ends at q: it ends there or a colon or an at-sign follows. */
  predicate StopsSuffix(s: string, q: nat) {
    q == |s| || (q < |s| && (s[q] == ':' || s[q] == '@'))
  }

  /**
   * Where s ends with the text of well-formed suffixes, the loop takes exactly
   * those suffixes: a tag or a digest always stops in front of the next colon or at-sign.
   */
  lemma SuffixLoopOfText(s: string, p: nat, xs: seq<Suffix>)
    requires forall x <- xs :: IsWellFormedSuffix(x)
    requires EndsWithSuffixes(s, p, xs)
    ensures IsSuffixLoop(s, p, xs)
  {
    forall q: nat, x: Suffix | IsWellFormedSuffix(x) && OccursAt(s, q, SuffixText(x)) && StopsSuffix(s, q + |SuffixText(x)|)
      ensures IterationStep(s)(q, x)
    {
      IterationOfText(s, q, x);
    }
    assert LoopStop(s)(|s|) by {
      LoopStopsAt(s, |s|);
    }
    RunOfText(s, IterationStep(s), LoopStop(s), IsWellFormedSuffix, p, xs);
  }

  /**
   * A run over suffixes whose text makes up the rest of s: each suffix is a step
   * where its text lies, and the run stops at the end of s.
   */
  lemma {:induction false} RunOfText(s: string, step: (nat, Suffix) -> bool, stop: nat -> bool, good: Suffix -> bool, p: nat, xs: seq<Suffix>)
    requires forall x <- xs :: good(x)
    requires EndsWithSuffixes(s, p, xs)
    requires forall q: nat, x: Suffix | good(x) && OccursAt(s, q, SuffixText(x)) && StopsSuffix(s, q + |SuffixText(x)|) :: step(q, x)
    requires stop(|s|)
    ensures IsRun(step, stop, p, xs)
    decreases |xs|
  {
    SuffixesTextStart(xs);
    if |xs| > 0 {
      var e: nat := p + |SuffixText(xs[0])|;
      FirstSuffixText(s, p, xs);
      SuffixesTextStart(xs[1..]);
      assert step(p, xs[0]);
      assert forall y <- xs[1..] :: good(y) by {
        assert forall y <- xs[1..] :: y in xs;
      }
      RunOfText(s, step, stop, good, e, xs[1..]);
    }
  }

  /** The text of the first suffix lies where the text of all of them starts, and the others' text follows it. */
  lemma FirstSuffixText(s: string, p: nat, xs: seq<Suffix>)
    requires |xs| > 0 && EndsWithSuffixes(s, p, xs)
    ensures OccursAt(s, p, SuffixText(xs[0]))
    ensures EndsWithSuffixes(s, p + |SuffixText(xs[0])|, xs[1..])
  {
    var t, u := SuffixText(xs[0]), SuffixesText(xs[1..]);
    assert SuffixesText(xs) == t + u;
    SlicesSplit(s, p, t, u);
  }

  /** A well-formed suffix whose text lies at p and is followed by the end, a colon or an at-sign is the iteration at p. */
  lemma IterationOfText(s: string, p: nat, x: Suffix)
    requires IsWellFormedSuffix(x) && OccursAt(s, p, SuffixText(x))
    requires StopsSuffix(s, p + |SuffixText(x)|)
    ensures IsIterationAt(s, p, x)
  {
    var e := p + |SuffixText(x)|;
    assert s[p] == SuffixText(x)[0];
    assert s[p + 1..e] == SuffixText(x)[1..];
    match x
    case Tag(t) =>
      assert s[p + 1..e] == t;
      TagIterationAt(s, p, e);
    case Digest(d) =>
      assert s[p + 1..e] == d;
      DigestIterationAt(s, p, e);
  }

  /**
   * A repository path at the start of s, followed by the end or by a character
   * that can be in neither a label nor a domain, leaves no room for a registry:
   * its first label is followed by a slash or by that character, and neither
   * can be in a domain.
   */
  lemma NoRegistryBeforeRepository(s: string, r: string)
    requires IsRepositoryPath(r) && OccursAt(s, 0, r)
    requires |r| == |s| || !(IsLabelChar(s[|r|]) || s[|r|] == '.')
    ensures forall e | 0 <= e <= |s| :: !IsRegistryEnd(s, e)
  {
    SplitFirstPiece(r, '/');
    var p := Split(r, '/')[0];
    assert IsLabel(p) by { assert p in Split(r, '/'); }
    assert forall k | 0 <= k < |p| :: s[k] == p[k];
    NoDotNoRegistry(s, |p|);
  }

  /** Text assembled from a domain, a slash, a repository path and well-formed suffixes is their greedy match. */
  lemma AssembledIsGreedy(registry: Option<string>, repository: string, suffixes: seq<Suffix>)
    requires registry.Some? ==> IsDomain(registry.value)
    requires IsRepositoryPath(repository)
    requires forall x <- suffixes :: IsWellFormedSuffix(x)
    ensures IsGreedyMatch(MatchedText(Assembled(registry, repository, suffixes)), Assembled(registry, repository, suffixes))
  {
    var m := Assembled(registry, repository, suffixes);
    var s := MatchedText(m);
    AssembledPieces(m);
    assert IsRegistryChoice(s, registry) by {
      AssembledRegistry(m);
    }
    assert IsSlashChoice(s, DomainLength(m), m.slash) by {
      AssembledSlash(m);
    }
    assert IsLongestRepository(s, RepositoryOffset(m), RepositoryLimit(m)) by {
      RepositoryStopsAt(s, RepositoryOffset(m), RepositoryLimit(m));
    }
    assert IsSuffixLoop(s, RepositoryLimit(m), suffixes) by {
      SuffixLoopOfText(s, RepositoryLimit(m), suffixes);
    }
    GreedyMatchIntro(s, m);
  }

  /**
   * Where the pieces of an assembled match lie in its text: the domain at the
   * start, then the slash, the repository, and the suffixes up to the end; the
   * repository is followed by the end, a colon or an at-sign.
   */
  lemma AssembledPieces(m: Match)
    requires m.slash <==> m.domain.Some?
    ensures var s := MatchedText(m);
      && (m.domain.Some? ==> OccursAt(s, 0, m.domain.value) && s[|m.domain.value|] == '/')
      && RepositoryLimit(m) <= |s|
      && OccursAt(s, RepositoryOffset(m), m.repository)
      && EndsWithSuffixes(s, RepositoryLimit(m), m.suffixes)
      && StopsSuffix(s, RepositoryLimit(m))
  {
    var s := MatchedText(m);
    var d := if m.domain.Some? then m.domain.value else "";
    var slash := if m.slash then "/" else "";
    var tail := SuffixesText(m.suffixes);
    assert s == d + slash + m.repository + tail;
    assert RepositoryOffset(m) == |d| + |slash| && RepositoryLimit(m) == |d| + |slash| + |m.repository|;
    PiecesAt(d, slash, m.repository, tail);
    SuffixesTextStart(m.suffixes);
  }

  /** The registry of an assembled match is its registry choice. */
  lemma AssembledRegistry(m: Match)
    requires m.slash <==> m.domain.Some?
    requires m.domain.Some? ==> IsDomain(m.domain.value)
    requires IsRepositoryPath(m.repository)
    ensures IsRegistryChoice(MatchedText(m), m.domain)
  {
    var s := MatchedText(m);
    AssembledPieces(m);
    if m.domain.Some? {
      var d := m.domain.value;
      assert s[..|d|] == d;
      ChainStartsWithLabel(s, RepositoryOffset(m), RepositoryLimit(m), '/');
      RegistryEndsBefore(s, |d|);
    } else {
      NoRegistryBeforeRepository(s, m.repository);
    }
  }

  /** The slash of an assembled match is its slash choice. */
  lemma AssembledSlash(m: Match)
    requires m.slash <==> m.domain.Some?
    requires IsRepositoryPath(m.repository)
    ensures DomainLength(m) <= |MatchedText(m)|
    ensures IsSlashChoice(MatchedText(m), DomainLength(m), m.slash)
  {
    var s := MatchedText(m);
    var start, q := DomainLength(m), RepositoryOffset(m);
    AssembledPieces(m);
    assert LabelStartsAt(s, q) by {
      ChainStartsWithLabel(s, q, RepositoryLimit(m), '/');
    }
    assert q < |s| by {
      LabelChainEnds(m.repository, '/');
    }
    if m.slash {
      assert q == start + 1 && s[start] == '/';
    } else {
      assert q == start;
      LabelChainEnds(m.repository, '/');
      assert s[q] == m.repository[0];
    }
    SlashChoiceAt(s, start, m.slash, q);
  }

  /** Where a label starts right after a slash the slash is consumed; where it starts at once there is no slash. */
  lemma SlashChoiceAt(s: string, start: nat, slash: bool, q: nat)
    requires start <= q < |s| && LabelStartsAt(s, q)
    requires slash ==> q == start + 1 && s[start] == '/'
    requires !slash ==> q == start && IsAlnum(s[q])
    ensures IsSlashChoice(s, start, slash)
  {
  }

  /** Where each of four pieces lies in their concatenation. */
  lemma PiecesAt(a: string, b: string, c: string, d: string)
    ensures var s := a + b + c + d;
      && OccursAt(s, 0, a) && OccursAt(s, |a|, b) && OccursAt(s, |a| + |b|, c) && OccursAt(s, |a| + |b| + |c|, d)
      && |s| == |a| + |b| + |c| + |d|
  {
  }

  /**
   * Constructing a reference from assembled text succeeds, and its getters
   * return the registry, the repository, the last tag and the last digest it was assembled from.
   */
  lemma AssembledRoundTrip(registry: Option<string>, repository: string, suffixes: seq<Suffix>)
    requires registry.Some? ==> IsDomain(registry.value)
    requires IsRepositoryPath(repository)
    requires forall x <- suffixes :: IsWellFormedSuffix(x)
    ensures var a := NewArtifactReference(MatchedText(Assembled(registry, repository, suffixes)));
      && a.Success?
      && a.value.GetRegistryEndpoint() == registry
      && a.value.GetRepository() == repository
      && a.value.GetTag() == LastTag(suffixes)
      && a.value.GetSha() == LastDigest(suffixes)
  {
    AssembledIsGreedy(registry, repository, suffixes);
    GettersOfMatch(MatchedText(Assembled(registry, repository, suffixes)), Assembled(registry, repository, suffixes));
  }
}
