/**
 * Inputs on the edges of the pattern: too short or with a first character no
 * reference can start with, a repository followed by text the match leaves
 * unread, and a registry that runs straight into the repository because the
 * slash between them is optional.
 */
module ReferenceEdgeCases {
  import opened Wrappers
  import opened Sequences
  import opened ReferenceGrammar
  import opened ReferenceScanner
  import opened Artifact
  import opened ReferenceProperties

  /** An input of fewer than two characters holds no label, so construction fails with the fixed message. */
  lemma ShortInputFails(s: string)
    requires |s| < 2
    ensures NewArtifactReference(s).Failure?
    ensures NewArtifactReference(s).error.message == InvalidReferenceMessage
  {
    NoLabelNearEnd(s, 0);
  }

  /** An input that starts with neither an alphanumeric nor a slash fails with the fixed message. */
  lemma BadFirstCharacterFails(s: string)
    requires |s| > 0 && !IsAlnum(s[0]) && s[0] != '/'
    ensures NewArtifactReference(s).Failure?
    ensures NewArtifactReference(s).error.message == InvalidReferenceMessage
  {
    LabelEndAbsent(s, 0);
  }

  /**
   * Where no registry can be chosen and the repository path r at the start of s
   * is followed by the end or by a character that continues neither a label nor
   * a path, the reference is r with the suffixes the loop takes after it:
   * whatever follows them is ignored.
   */
  lemma RepositoryWithSuffixes(s: string, r: string, xs: seq<Suffix>)
    requires IsRepositoryPath(r) && OccursAt(s, 0, r)
    requires forall e | 0 <= e <= |s| :: !IsRegistryEnd(s, e)
    requires |r| == |s| || !(IsLabelChar(s[|r|]) || s[|r|] == '/')
    requires IsSuffixLoop(s, |r|, xs)
    ensures var a := NewArtifactReference(s);
      && a.Success?
      && a.value.GetRegistryEndpoint() == None
      && a.value.GetRepository() == r
      && a.value.GetTag() == LastTag(xs)
      && a.value.GetSha() == LastDigest(xs)
  {
    var m := Match(None, false, r, xs);
    LabelChainEnds(r, '/');
    assert s[0] == r[0];
    assert IsLongestRepository(s, 0, |r|) by {
      assert s[0..|r|] == r;
      RepositoryStopsAt(s, 0, |r|);
    }
    GreedyMatchIntro(s, m);
    GettersOfMatch(s, m);
  }

  /** The same when the loop takes nothing: the reference is r alone. */
  lemma OnlyRepository(s: string, r: string)
    requires IsRepositoryPath(r) && OccursAt(s, 0, r)
    requires forall e | 0 <= e <= |s| :: !IsRegistryEnd(s, e)
    requires |r| == |s| || !(IsLabelChar(s[|r|]) || s[|r|] == '/')
    requires IsSuffixLoop(s, |r|, [])
    ensures var a := NewArtifactReference(s);
      && a.Success?
      && a.value.GetRegistryEndpoint() == None
      && a.value.GetRepository() == r
      && a.value.GetTag() == None
      && a.value.GetSha() == None
  {
    RepositoryWithSuffixes(s, r, []);
  }

  /** Fewer than two characters before the end leave no room for a label. */
  lemma NoLabelNearEnd(s: string, e: nat)
    requires e <= |s| && |s| - e < 2
    ensures !LabelStartsAt(s, e)
  {
    forall k | e <= k <= |s| ensures !IsLabel(s[e..k]) {
    }
  }

  /**
   * A domain followed at once by a label of two characters: the domain is the
   * registry and the label the repository, because no longer prefix leaves
   * room for a label after it.
   */
  lemma GluedRegistry(s: string, d: string, r: string)
    requires IsDomain(d) && IsLabel(r) && |r| == 2 && s == d + r
    ensures var a := NewArtifactReference(s);
      && a.Success?
      && a.value.GetRegistryEndpoint() == Some(d)
      && a.value.GetRepository() == r
      && a.value.GetTag() == None
      && a.value.GetSha() == None
  {
    var m := Match(Some(d), false, r, []);
    assert s[..|d|] == d && s[|d|..|s|] == r;
    assert IsRegistryChoice(s, Some(d)) by {
      assert LabelStartsAt(s, |d|);
      forall e | |d| < e <= |s| ensures !CanStartRepository(s, e) {
        NoLabelNearEnd(s, e);
        if e < |s| {
          assert s[e] == r[e - |d|];
        }
      }
    }
    assert IsLongestRepository(s, |d|, |s|) by {
      LabelIsChain(r, '/');
      RepositoryStopsAt(s, |d|, |s|);
    }
    assert s[|d|] == r[0];
    LoopStopsAt(s, |s|);
    GreedyMatchIntro(s, m);
    GettersOfMatch(s, m);
  }
}
