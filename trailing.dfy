/**
 * The match is anchored at the start of the input only: the text it consumed is
 * a prefix of the input, whatever follows that prefix is ignored, and appending
 * text never turns a match into a failure.
 */
module TrailingText {
  import opened Wrappers
  import opened Sequences
  import opened ReferenceGrammar
  import opened ReferenceScanner
  import opened Artifact

  /** The text a greedy match consumed is a prefix of the input. */
  lemma MatchedPrefix(s: string, m: Match)
    requires IsGreedyMatch(s, m)
    ensures OccursAt(s, 0, MatchedText(m))
  {
    SuffixLoopText(s, RepositoryLimit(m), m.suffixes);
    PiecesOfMatch(s, m);
  }

  /** The pieces of a match, lying in s one after the other from the start, make up a prefix of s. */
  lemma PiecesOfMatch(s: string, m: Match)
    requires m.domain.Some? ==> |m.domain.value| <= |s| && m.domain.value == s[..|m.domain.value|]
    requires m.slash ==> DomainLength(m) < |s| && s[DomainLength(m)] == '/'
    requires RepositoryLimit(m) <= |s| && m.repository == s[RepositoryOffset(m)..RepositoryLimit(m)]
    requires OccursAt(s, RepositoryLimit(m), SuffixesText(m.suffixes))
    ensures OccursAt(s, 0, MatchedText(m))
  {
    var d := if m.domain.Some? then m.domain.value else "";
    var slash := if m.slash then "/" else "";
    var head := d + slash + m.repository;
    assert |head| == RepositoryLimit(m);
    assert OccursAt(s, 0, head) by {
      assert OccursAt(s, |d|, slash) by {
        if m.slash {
          assert s[|d|..|d| + 1] == [s[|d|]];
        }
      }
      PiecesInOrder(s, d, slash, m.repository);
    }
    SlicesConcat(s, 0, head, SuffixesText(m.suffixes));
  }

  /** Three pieces that lie in s one after the other from the start make up a prefix of s. */
  lemma PiecesInOrder(s: string, a: string, b: string, c: string)
    requires OccursAt(s, 0, a) && OccursAt(s, |a|, b) && OccursAt(s, |a| + |b|, c)
    ensures OccursAt(s, 0, a + b + c)
  {
    SlicesConcat(s, 0, a, b);
    SlicesConcat(s, 0, a + b, c);
  }

  /** Appending text to a string that matches leaves a string that matches. */
  lemma MatchSurvivesAppend(s: string, t: string)
    requires NewArtifactReference(s).Success?
    ensures NewArtifactReference(s + t).Success?
  {
    RepositoryStartSurvivesAppend(s, t);
  }

  /** Where a repository can start at the beginning of s, it can still start there once text is appended. */
  lemma RepositoryStartSurvivesAppend(s: string, t: string)
    requires CanStartRepository(s, 0)
    ensures CanStartRepository(s + t, 0)
  {
    forall i: nat, j: nat | i <= j <= |s| ensures (s + t)[i..j] == s[i..j] {
    }
  }

  /** In the prefix `s[..n]`, a label starts at i only if one starts there in s. */
  lemma LabelInPrefix(s: string, n: nat, i: nat)
    requires i <= n <= |s| && LabelStartsAt(s[..n], i)
    ensures LabelStartsAt(s, i)
  {
    var j :| i <= j <= n && IsLabel(s[..n][i..j]);
    assert s[..n][i..j] == s[i..j];
  }

  /** In the prefix `s[..n]`, a repository can start at i only if one can start there in s. */
  lemma RepositoryStartInPrefix(s: string, n: nat, i: nat)
    requires i <= n <= |s| && CanStartRepository(s[..n], i)
    ensures CanStartRepository(s, i)
  {
    if LabelStartsAt(s[..n], i) {
      LabelInPrefix(s, n, i);
    } else {
      LabelInPrefix(s, n, i + 1);
    }
  }

  /** A registry end of the prefix `s[..n]` is a registry end of s. */
  lemma RegistryEndInPrefix(s: string, n: nat, e: nat)
    requires n <= |s| && e <= n && IsRegistryEnd(s[..n], e)
    ensures IsRegistryEnd(s, e)
  {
    assert s[..n][..e] == s[..e];
    RepositoryStartInPrefix(s, n, e);
  }

  /** Repository fragments that end by n are the same in s and in `s[..n]`. */
  lemma RepositoryInPrefix(s: string, n: nat, q: nat, e: nat)
    requires q <= e <= n <= |s|
    ensures IsRepositoryFragment(s[..n], q, e) <==> IsRepositoryFragment(s, q, e)
  {
    assert s[..n][q..e] == s[q..e];
  }

  /** Tag and digest fragments that end by n are the same in s and in `s[..n]`. */
  lemma SuffixFragmentsInPrefix(s: string, n: nat, p: nat, e: nat)
    requires p < e <= n <= |s|
    ensures IsTagFragment(s[..n], p, e) <==> IsTagFragment(s, p, e)
    ensures IsDigestFragment(s[..n], p, e) <==> IsDigestFragment(s, p, e)
  {
    assert s[..n][p + 1..e] == s[p + 1..e];
  }

  /** An iteration of the loop in s that ends by n is an iteration in `s[..n]`. */
  lemma IterationInPrefix(s: string, n: nat, p: nat, x: Suffix)
    requires n <= |s| && IsIterationAt(s, p, x) && p + |SuffixText(x)| <= n
    ensures IsIterationAt(s[..n], p, x)
  {
    var e := p + |SuffixText(x)|;
    forall e' | p < e' <= n ensures
      && (IsTagFragment(s[..n], p, e') <==> IsTagFragment(s, p, e'))
      && (IsDigestFragment(s[..n], p, e') <==> IsDigestFragment(s, p, e'))
    {
      SuffixFragmentsInPrefix(s, n, p, e');
    }
    assert s[..n][p + 1..e] == s[p + 1..e];
  }

  /** The suffix loop of s, cut where it ends, is the suffix loop of the prefix. */
  lemma SuffixLoopInPrefix(s: string, p: nat, xs: seq<Suffix>)
    requires p <= |s| && IsSuffixLoop(s, p, xs)
    ensures p + |SuffixesText(xs)| <= |s|
    ensures IsSuffixLoop(s[..p + |SuffixesText(xs)|], p, xs)
  {
    SuffixLoopText(s, p, xs);
    var n := p + |SuffixesText(xs)|;
    var u := s[..n];
    forall q: nat, x: Suffix | IterationStep(s)(q, x) && q + |SuffixText(x)| <= n ensures IterationStep(u)(q, x) {
      IterationInPrefix(s, n, q, x);
    }
    assert LoopStop(u)(n);
    RunTransfer(IterationStep(s), LoopStop(s), IterationStep(u), LoopStop(u), p, xs, n);
  }

  /** The repository choice of s is the repository choice of any prefix that holds it. */
  lemma RepositoryChoiceInPrefix(s: string, n: nat, q: nat, e: nat)
    requires e <= n <= |s| && IsLongestRepository(s, q, e)
    ensures IsLongestRepository(s[..n], q, e)
  {
    RepositoryInPrefix(s, n, q, e);
    forall e' | e < e' <= n ensures !IsRepositoryFragment(s[..n], q, e') {
      RepositoryInPrefix(s, n, q, e');
    }
  }

  /** The registry choice of s is the registry choice of a prefix in which a repository still starts after it. */
  lemma RegistryChoiceInPrefix(s: string, n: nat, domain: Option<string>)
    requires n <= |s| && IsRegistryChoice(s, domain)
    requires domain.Some? ==> |domain.value| <= n && CanStartRepository(s[..n], |domain.value|)
    ensures IsRegistryChoice(s[..n], domain)
  {
    forall e | 0 <= e <= n && IsRegistryEnd(s[..n], e) ensures IsRegistryEnd(s, e) {
      RegistryEndInPrefix(s, n, e);
    }
    if domain.Some? {
      assert s[..n][..|domain.value|] == s[..|domain.value|];
    }
  }

  /** A prefix that holds the repository makes the same registry and slash choices as s. */
  lemma PrefixKeepsChoices(s: string, m: Match, n: nat)
    requires IsGreedyMatch(s, m) && RepositoryLimit(m) <= n <= |s|
    ensures IsRegistryChoice(s[..n], m.domain)
    ensures IsSlashChoice(s[..n], DomainLength(m), m.slash)
  {
    var u := s[..n];
    var start, q, e := DomainLength(m), RepositoryOffset(m), RepositoryLimit(m);
    assert m.repository == u[q..e];
    ChainStartsWithLabel(u, q, e, '/');
    assert IsRegistryChoice(u, m.domain) by {
      assert m.slash ==> u[start] == '/';
      RegistryChoiceInPrefix(s, n, m.domain);
    }
    if start < n && u[start] == '/' && LabelStartsAt(u, start + 1) {
      LabelInPrefix(s, n, start + 1);
    }
  }

  /**
   * Cutting the input after the text the match consumed changes nothing: the
   * prefix has the same greedy match.
   */
  lemma TrailingTextIgnored(s: string, m: Match)
    requires IsGreedyMatch(s, m)
    ensures |MatchedText(m)| <= |s|
    ensures IsGreedyMatch(s[..|MatchedText(m)|], m)
  {
    MatchedPrefix(s, m);
    var n := |MatchedText(m)|;
    var u := s[..n];
    var start, q, e := DomainLength(m), RepositoryOffset(m), RepositoryLimit(m);
    assert n == e + |SuffixesText(m.suffixes)|;
    assert IsSuffixLoop(u, e, m.suffixes) by {
      SuffixLoopInPrefix(s, e, m.suffixes);
    }
    assert IsLongestRepository(u, q, e) && m.repository == u[q..e] by {
      RepositoryChoiceInPrefix(s, n, q, e);
    }
    PrefixKeepsChoices(s, m, n);
    GreedyMatchIntro(u, m);
  }

  /** The reference built from the matched prefix has the same groups as the one built from the whole input. */
  lemma PrefixHasSameReference(s: string, m: Match)
    requires IsGreedyMatch(s, m)
    ensures |MatchedText(m)| <= |s|
    ensures MatchReference(s[..|MatchedText(m)|]) == MatchReference(s) == Some(m)
  {
    TrailingTextIgnored(s, m);
    GreedyMatchIsTheMatch(s, m);
    GreedyMatchIsTheMatch(s[..|MatchedText(m)|], m);
  }
}
