/**
 * The six references of the repository's tests and the groups the tests expect
 * of them, derived from the model.
 */
module ReferenceExamples {
  import opened Wrappers
  import opened Sequences
  import opened ReferenceGrammar
  import opened ReferenceScanner
  import opened Artifact
  import opened ReferenceComposition
  import opened ReferenceProperties
  import opened ReferenceEdgeCases
  import opened ReferenceExamplePieces

  /** `my.registry.com/product/app/hello-world:v1.0` */
  const FqrWithTag: string := TestRegistry + "/" + TestRepository + ":" + TestTag
  /** `my.registry.com/product/app/hello-world@sha256:238f…1984` */
  const FqrWithSha: string := TestRegistry + "/" + TestRepository + "@" + TestDigest
  /** `product/app/hello-world:v1.0` */
  const SrWithTag: string := TestRepository + ":" + TestTag
  /** `product/app/hello-world@sha256:238f…1984` */
  const SrWithSha: string := TestRepository + "@" + TestDigest

  /** The text in front of the repository: the registry and its slash, if there is a registry. */
  function RegistryPrefix(registry: Option<string>): (t: string)
    ensures registry.None? ==> t == ""
    ensures registry.Some? ==> t == registry.value + "/"
  {
    if registry.Some? then registry.value + "/" else ""
  }

  lemma OneSuffixText(x: Suffix)
    ensures SuffixesText([x]) == SuffixText(x)
  {
    assert [x][1..] == [];
  }

  lemma NoRegistryPrefix(repository: string)
    ensures RegistryPrefix(None) + repository == repository
  {
  }

  /** A reference whose only suffix is a tag: the getters return its registry, repository and tag, and no digest. */
  lemma TaggedReference(s: string, registry: Option<string>, repository: string, tag: string)
    requires registry.Some? ==> IsDomain(registry.value)
    requires IsRepositoryPath(repository) && IsTag(tag)
    requires s == RegistryPrefix(registry) + repository + ":" + tag
    ensures var a := NewArtifactReference(s);
      && a.Success?
      && a.value.GetRegistryEndpoint() == registry
      && a.value.GetRepository() == repository
      && a.value.GetTag() == Some(tag)
      && a.value.GetSha() == None
  {
    var xs := [Tag(tag)];
    AssembledRoundTrip(registry, repository, xs);
    OneSuffixText(Tag(tag));
    AppendAssociates(RegistryPrefix(registry) + repository, ":", tag);
    assert MatchedText(Assembled(registry, repository, xs)) == s;
  }

  /** A reference whose only suffix is a digest: the getters return its registry, repository and digest, and no tag. */
  lemma DigestedReference(s: string, registry: Option<string>, repository: string, digest: string)
    requires registry.Some? ==> IsDomain(registry.value)
    requires IsRepositoryPath(repository) && IsDigest(digest)
    requires s == RegistryPrefix(registry) + repository + "@" + digest
    ensures var a := NewArtifactReference(s);
      && a.Success?
      && a.value.GetRegistryEndpoint() == registry
      && a.value.GetRepository() == repository
      && a.value.GetTag() == None
      && a.value.GetSha() == Some(digest)
  {
    var xs := [Digest(digest)];
    AssembledRoundTrip(registry, repository, xs);
    OneSuffixText(Digest(digest));
    AppendAssociates(RegistryPrefix(registry) + repository, "@", digest);
    assert MatchedText(Assembled(registry, repository, xs)) == s;
  }

  /** A bare repository path: no registry, the whole path as the repository, neither tag nor digest. */
  lemma BareReference(s: string)
    requires IsRepositoryPath(s)
    ensures var a := NewArtifactReference(s);
      && a.Success?
      && a.value.GetRegistryEndpoint() == None
      && a.value.GetRepository() == s
      && a.value.GetTag() == None
      && a.value.GetSha() == None
  {
    AssembledRoundTrip(None, s, []);
    assert MatchedText(Assembled(None, s, [])) == s;
  }

  lemma FullyQualifiedWithTag()
    ensures var a := NewArtifactReference(FqrWithTag);
      && a.Success?
      && a.value.GetRegistryEndpoint() == Some(TestRegistry)
      && a.value.GetRepository() == TestRepository
      && a.value.GetTag() == Some(TestTag)
      && a.value.GetSha() == None
  {
    RegistryOfTests();
    RepositoryOfTests();
    TagOfTests();
    TaggedReference(FqrWithTag, Some(TestRegistry), TestRepository, TestTag);
  }

  lemma FullyQualifiedWithSha()
    ensures var a := NewArtifactReference(FqrWithSha);
      && a.Success?
      && a.value.GetRegistryEndpoint() == Some(TestRegistry)
      && a.value.GetRepository() == TestRepository
      && a.value.GetTag() == None
      && a.value.GetSha() == Some(TestDigest)
  {
    RegistryOfTests();
    RepositoryOfTests();
    DigestOfTests();
    DigestedReference(FqrWithSha, Some(TestRegistry), TestRepository, TestDigest);
  }

  lemma ShortWithTag()
    ensures var a := NewArtifactReference(SrWithTag);
      && a.Success?
      && a.value.GetRegistryEndpoint() == None
      && a.value.GetRepository() == TestRepository
      && a.value.GetTag() == Some(TestTag)
      && a.value.GetSha() == None
  {
    RepositoryOfTests();
    TagOfTests();
    NoRegistryPrefix(TestRepository);
    TaggedReference(SrWithTag, None, TestRepository, TestTag);
  }

  lemma ShortWithSha()
    ensures var a := NewArtifactReference(SrWithSha);
      && a.Success?
      && a.value.GetRegistryEndpoint() == None
      && a.value.GetRepository() == TestRepository
      && a.value.GetTag() == None
      && a.value.GetSha() == Some(TestDigest)
  {
    RepositoryOfTests();
    DigestOfTests();
    NoRegistryPrefix(TestRepository);
    DigestedReference(SrWithSha, None, TestRepository, TestDigest);
  }

  lemma HierarchicalRepository()
    ensures var a := NewArtifactReference(TestRepository);
      && a.Success?
      && a.value.GetRegistryEndpoint() == None
      && a.value.GetRepository() == TestRepository
      && a.value.GetTag() == None
      && a.value.GetSha() == None
  {
    RepositoryOfTests();
    BareReference(TestRepository);
  }

  lemma FlatRepositoryReference()
    ensures var a := NewArtifactReference(FlatRepository);
      && a.Success?
      && a.value.GetRegistryEndpoint() == None
      && a.value.GetRepository() == FlatRepository
      && a.value.GetTag() == None
      && a.value.GetSha() == None
  {
    FlatRepositoryOfTests();
    BareReference(FlatRepository);
  }

  lemma TextWithoutRegistry(repository: string, xs: seq<Suffix>)
    ensures MatchedText(Assembled(None, repository, xs)) == repository + SuffixesText(xs)
  {
    assert "" + "" + repository == repository;
  }

  lemma TwoSuffixesText(x: Suffix, y: Suffix)
    ensures SuffixesText([x, y]) == SuffixText(x) + SuffixText(y)
  {
    assert [x, y][1..] == [y];
    OneSuffixText(y);
  }

  /** A reference followed by two suffixes, in the order given: the getters return the last tag and the last digest among them. */
  lemma TwoSuffixReference(s: string, repository: string, x: Suffix, y: Suffix)
    requires IsRepositoryPath(repository) && IsWellFormedSuffix(x) && IsWellFormedSuffix(y)
    requires s == repository + SuffixText(x) + SuffixText(y)
    ensures var a := NewArtifactReference(s);
      && a.Success?
      && a.value.GetRegistryEndpoint() == None
      && a.value.GetRepository() == repository
      && a.value.GetTag() == LastTag([x, y])
      && a.value.GetSha() == LastDigest([x, y])
  {
    var xs := [x, y];
    assert forall z <- xs :: IsWellFormedSuffix(z);
    AssembledRoundTrip(None, repository, xs);
    TwoSuffixesText(x, y);
    AppendAssociates(repository, SuffixText(x), SuffixText(y));
    TextWithoutRegistry(repository, xs);
  }

  lemma EmptyInputFails()
    ensures NewArtifactReference("").Failure?
    ensures NewArtifactReference("").error.message == InvalidReferenceMessage
  {
    ShortInputFails("");
  }

  lemma OneCharacterFails()
    ensures NewArtifactReference("a").Failure?
    ensures NewArtifactReference("a").error.message == InvalidReferenceMessage
  {
    ShortInputFails("a");
  }

  lemma LeadingHyphenFails()
    ensures NewArtifactReference("-app").Failure?
    ensures NewArtifactReference("-app").error.message == InvalidReferenceMessage
  {
    BadFirstCharacterFails("-app");
  }

  lemma LeadingColonFails()
    ensures NewArtifactReference(":v1").Failure?
    ensures NewArtifactReference(":v1").error.message == InvalidReferenceMessage
  {
    BadFirstCharacterFails(":v1");
  }

  /** The underscore ends the repository; the rest of the input is ignored. */
  lemma UpperCaseRepository()
    ensures var a := NewArtifactReference("UPPER_CASE/repo");
      && a.Success?
      && a.value.GetRegistryEndpoint() == None
      && a.value.GetRepository() == "UPPER"
      && a.value.GetTag() == None
      && a.value.GetSha() == None
  {
    var s, r := "UPPER_CASE/repo", "UPPER";
    UpperCasePieces();
    NoRegistryBeforeRepository(s, r);
    LoopStopsAt(s, |r|);
    OnlyRepository(s, r);
  }

  /** There is no port: `host.com` cannot be the registry, and the repository is the first label. */
  lemma PortIsNotRegistry()
    ensures var a := NewArtifactReference("host.com:5000/app");
      && a.Success?
      && a.value.GetRegistryEndpoint() == None
      && a.value.GetRepository() == "host"
      && a.value.GetTag() == None
      && a.value.GetSha() == None
  {
    var s, r := "host.com:5000/app", "host";
    PortPieces();
    PortCharacters(s);
    ShortLastLabelNoRegistry(s, 4, 8);
    LoopStopsAt(s, |r|);
    OnlyRepository(s, r);
  }

  /**
   * Without a dot there is no registry, so a port after a host name is read as
   * a tag: `localhost:5000/app` has repository `localhost` and tag `5000`, and
   * the `/app` after it is ignored.
   */
  lemma LocalPortIsTag()
    ensures var a := NewArtifactReference("localhost:5000/app");
      && a.Success?
      && a.value.GetRegistryEndpoint() == None
      && a.value.GetRepository() == "localhost"
      && a.value.GetTag() == Some("5000")
      && a.value.GetSha() == None
  {
    var s, r := "localhost:5000/app", "localhost";
    LocalPortCharacters(s);
    NoDotNoRegistry(s, 9);
    TagIterationAt(s, 9, 14);
    LoopStopsAt(s, 14);
    LoopStep(s, 9, 14, Tag("5000"), []);
    assert [Tag("5000")] + [] == [Tag("5000")];
    RepositoryWithSuffixes(s, r, [Tag("5000")]);
  }

  /** Without a slash, the registry runs into the repository: it is the longest domain after which a label still fits. */
  lemma RegistryWithoutSlash()
    ensures var a := NewArtifactReference("ab.cdef");
      && a.Success?
      && a.value.GetRegistryEndpoint() == Some("ab.cd")
      && a.value.GetRepository() == "ef"
      && a.value.GetTag() == None
      && a.value.GetSha() == None
  {
    GluedPieces();
    GluedRegistry("ab.cdef", "ab.cd", "ef");
  }

  /** A digest with fewer than 32 hexadecimal digits is not captured, and construction still succeeds. */
  lemma ShortDigestIgnored()
    ensures var a := NewArtifactReference("app@sha256:abc");
      && a.Success?
      && a.value.GetRegistryEndpoint() == None
      && a.value.GetRepository() == "app"
      && a.value.GetTag() == None
      && a.value.GetSha() == None
  {
    var s, r := "app@sha256:abc", "app";
    ShortDigestPieces();
    AppRepository();
    NoRegistryBeforeRepository(s, r);
    LoopStopsAtShortDigest(s, |r|);
    OnlyRepository(s, r);
  }

  /** Of two tags, the last one is kept. */
  lemma LastTagKept()
    ensures var a := NewArtifactReference("app:v1:v2");
      && a.Success?
      && a.value.GetRegistryEndpoint() == None
      && a.value.GetRepository() == "app"
      && a.value.GetTag() == Some("v2")
      && a.value.GetSha() == None
  {
    RepeatedTagPieces();
    AppRepository();
    TwoSuffixReference("app:v1:v2", "app", Tag("v1"), Tag("v2"));
  }

  /** `app:v1@sha256:238f…1984` */
  const TagAndDigest: string := "app" + ":v1" + "@" + TestDigest

  /** A tag and a digest can both be set. */
  lemma TagAndDigestBothKept()
    ensures var a := NewArtifactReference(TagAndDigest);
      && a.Success?
      && a.value.GetRegistryEndpoint() == None
      && a.value.GetRepository() == "app"
      && a.value.GetTag() == Some("v1")
      && a.value.GetSha() == Some(TestDigest)
  {
    TagAndDigestPieces();
    AppRepository();
    assert SuffixText(Tag("v1")) == ":v1";
    TwoSuffixReference(TagAndDigest, "app", Tag("v1"), Digest(TestDigest));
  }
}
