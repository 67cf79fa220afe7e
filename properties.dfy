/**
 * What the greedy match promises about the groups of a reference: the shape of
 * each group, where each greedy piece stops, and that trailing text is ignored.
 */
module ReferenceProperties {
  import opened ReferenceGrammar
  import opened ReferenceScanner
  import opened Artifact

  /** The registry, when present, is a domain prefix of the input with a dot, made of label characters and dots. */
  lemma RegistryShape(s: string, m: Match)
    requires IsGreedyMatch(s, m) && m.domain.Some?
    ensures var d := m.domain.value;
      && |d| <= |s| && d == s[..|d|]
      && IsDomain(d) && '.' in d
      && (forall k | 0 <= k < |d| :: IsLabelChar(d[k]) || d[k] == '.')
      && CanStartRepository(s, |d|)
  {
    DomainChars(m.domain.value);
  }

  /**
   * When the leading run of label characters stops at j without a dot, at a
   * character that is neither a label character nor a dot, no registry exists.
   */
  lemma NoDotNoRegistry(s: string, j: nat)
    requires j <= |s| && forall k | 0 <= k < j :: IsLabelChar(s[k])
    requires j == |s| || !(IsLabelChar(s[j]) || s[j] == '.')
    ensures forall e | 0 <= e <= |s| :: !IsRegistryEnd(s, e)
  {
    forall e | 0 <= e <= |s| && IsDomain(s[..e]) ensures false {
      DomainChars(s[..e]);
    }
  }

  /**
   * A registry needs a label of two or more characters after its last dot and a
   * label of two or more characters after its end, within the run of label
   * characters they share: where the first dot is followed by fewer than four
   * label characters and then a character that continues neither a label, a
   * domain nor a path (a port's colon, say), no prefix is a registry.
   */
  lemma ShortLastLabelNoRegistry(s: string, dot: nat, j: nat)
    requires dot < j <= |s| && s[dot] == '.'
    requires forall k | 0 <= k < dot :: s[k] != '.'
    requires forall k | dot < k < j :: IsLabelChar(s[k])
    requires j == |s| || !(IsLabelChar(s[j]) || s[j] == '.' || s[j] == '/')
    requires j - dot - 1 < 4
    ensures forall e | 0 <= e <= |s| :: !IsRegistryEnd(s, e)
  {
    forall e | 0 <= e <= |s| && IsRegistryEnd(s, e) ensures false {
      var t := s[..e];
      if e <= dot {
        assert forall k | 0 <= k < |t| :: t[k] != '.';
        SplitWithoutSeparator(t, '.');
      } else if e > j {
        RegistryEndsBefore(s, j);
      } else if e == j {
        if j < |s| {
          LabelEndAbsent(s, j);
        }
      } else {
        LastLabelInRun(s, dot, j, e);
        LabelInRun(s, j, e);
      }
    }
  }

  /** A domain that ends inside the run of label characters after a dot has at least two of them. */
  lemma LastLabelInRun(s: string, dot: nat, j: nat, e: nat)
    requires dot < e <= j <= |s| && s[dot] == '.'
    requires forall k | dot < k < j :: IsLabelChar(s[k])
    requires IsDomain(s[..e])
    ensures e - dot >= 3
  {
    var t := s[..e];
    LabelChainTail(t, '.', dot);
    var last := t[dot + 1..];
    assert forall k | 0 <= k < |last| :: last[k] == s[dot + 1 + k];
    SplitWithoutSeparator(last, '.');
    assert IsLabel(last);
  }

  /** A label that starts inside a run of label characters lies within the run. */
  lemma LabelInRun(s: string, j: nat, e: nat)
    requires e < j <= |s| && (j == |s| || !IsLabelChar(s[j]))
    requires LabelStartsAt(s, e)
    ensures j - e >= 2
  {
    var k :| e <= k <= |s| && IsLabel(s[e..k]);
    if k > j {
      assert s[e..k][j - e] == s[j];
    }
  }

  /** The registry ends before the first character that is neither a label character nor a dot. */
  lemma RegistryEndsBefore(s: string, j: nat)
    requires j < |s| && !(IsLabelChar(s[j]) || s[j] == '.')
    ensures forall e | j < e <= |s| :: !IsRegistryEnd(s, e)
  {
    forall e | j < e <= |s| && IsDomain(s[..e]) ensures false {
      DomainChars(s[..e]);
    }
  }

  /** The repository is `label ('/' label)*`: label characters and slashes, alphanumeric at both ends. */
  lemma RepositoryShape(s: string, m: Match)
    requires IsGreedyMatch(s, m)
    ensures var r := m.repository;
      && IsRepositoryPath(r) && |r| >= 2
      && IsAlnum(r[0]) && IsAlnum(r[|r| - 1])
      && forall k | 0 <= k < |r| :: IsLabelChar(r[k]) || r[k] == '/'
  {
    LabelChainEnds(m.repository, '/');
    LabelChainChars(m.repository, '/');
  }

  /** A repository path that cannot be continued at e is the longest at q. */
  lemma RepositoryStopsAt(s: string, q: nat, e: nat)
    requires IsRepositoryFragment(s, q, e)
    requires e == |s| || !(IsLabelChar(s[e]) || s[e] == '/')
    ensures IsLongestRepository(s, q, e)
  {
    forall e' | e < e' <= |s| && IsRepositoryFragment(s, q, e') ensures false {
      LabelChainChars(s[q..e'], '/');
    }
  }

  /** Every tag and digest the loop captures is well-formed: a tag has 1 to 128 characters. */
  lemma SuffixShape(s: string, m: Match)
    requires IsGreedyMatch(s, m)
    ensures forall x <- m.suffixes :: IsWellFormedSuffix(x)
    ensures forall x <- m.suffixes | x.Tag? :: 1 <= |x.tag| <= MaxTagLength && IsWord(x.tag[0])
    ensures forall x <- m.suffixes | x.Digest? :: IsDigest(x.digest)
  {
    SuffixLoopText(s, RepositoryLimit(m), m.suffixes);
  }

  /**
   * A tag stops at the 128th character, at the end of the input or in front of a
   * character that cannot be in a tag; longer runs are cut.
   */
  lemma TagStops(s: string, p: nat, t: string)
    requires IsIterationAt(s, p, Tag(t))
    ensures |t| == MaxTagLength || p + 1 + |t| == |s| || !IsTagChar(s[p + 1 + |t|])
  {
    var e := p + 1 + |t|;
    if |t| < MaxTagLength && e < |s| && IsTagChar(s[e]) {
      assert s[p + 1..e + 1] == t + [s[e]];
      assert IsTagFragment(s, p, e + 1);
    }
  }

  /** Conversely, a tag that stops there is the iteration the loop takes. */
  lemma TagIterationAt(s: string, p: nat, e: nat)
    requires IsTagFragment(s, p, e)
    requires e - (p + 1) == MaxTagLength || e == |s| || !IsTagChar(s[e])
    ensures IsIterationAt(s, p, Tag(s[p + 1..e]))
  {
    forall e' | e < e' <= |s| && IsTagFragment(s, p, e') ensures false {
    }
  }

  /** A digest is at least 34 characters long: an algorithm, the colon and 32 hexadecimal digits. */
  lemma DigestLength(t: string)
    requires IsDigest(t)
    ensures |t| >= MinDigestHexLength + 2
  {
  }

  /** The colon of a digest is its first colon: an algorithm has none. */
  lemma DigestColon(t: string, k: nat)
    requires IsDigestWithColonAt(t, k)
    ensures forall j | 0 <= j < k :: t[j] != ':'
  {
    forall j | 0 <= j < k ensures t[j] != ':' {
      assert t[..k][j] == t[j];
    }
  }

  /** A digest followed by a character that is not a hexadecimal digit is the iteration the loop takes. */
  lemma DigestIterationAt(s: string, p: nat, e: nat)
    requires IsDigestFragment(s, p, e)
    requires e == |s| || !IsHex(s[e])
    ensures IsIterationAt(s, p, Digest(s[p + 1..e]))
  {
    forall e' | e < e' <= |s| && IsDigestFragment(s, p, e') ensures false {
      DigestExtends(s, p, e, e');
    }
  }

  /** A longer digest at the same at-sign continues with a hexadecimal digit where the shorter one ends. */
  lemma DigestExtends(s: string, p: nat, e: nat, e': nat)
    requires IsDigestFragment(s, p, e) && IsDigestFragment(s, p, e') && e < e'
    ensures IsHex(s[e])
  {
    var t, t' := s[p + 1..e], s[p + 1..e'];
    var k :| 0 <= k < |t| && IsDigestWithColonAt(t, k);
    var k' :| 0 <= k' < |t'| && IsDigestWithColonAt(t', k');
    DigestColon(t, k);
    DigestColon(t', k');
    assert forall j | 0 <= j < |t| :: t'[j] == t[j];
    assert k == k';
    assert t'[k' + 1..][|t| - (k + 1)] == s[e];
  }

  /** The loop stops at the end of the input and in front of anything but a colon or an at-sign. */
  lemma LoopStopsAt(s: string, p: nat)
    requires p <= |s|
    requires p == |s| || (s[p] != ':' && s[p] != '@')
    ensures IsSuffixLoop(s, p, [])
  {
    assert LoopStop(s)(p);
  }

  /** An '@' whose text cannot hold a digest also stops the loop: a short digest is not an error. */
  lemma LoopStopsAtShortDigest(s: string, p: nat)
    requires p < |s| && s[p] == '@' && |s| - (p + 1) < MinDigestHexLength + 2
    ensures IsSuffixLoop(s, p, [])
  {
    forall e | p <= e <= |s| && IsDigestFragment(s, p, e) ensures false {
      DigestLength(s[p + 1..e]);
    }
    assert LoopStop(s)(p);
  }
}
