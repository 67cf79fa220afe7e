/**
 * The pieces the example references are made of, and the grammar each of them
 * satisfies: the references of the repository's tests and a few inputs on the
 * edges of the pattern.
 */
module ReferenceExamplePieces {
  import opened ReferenceGrammar

  const TestRegistry: string := "my.registry.com"
  const TestRepository: string := "product/app/hello-world"
  const FlatRepository: string := "hello-world"
  const TestTag: string := "v1.0"
  const TestAlgorithm: string := "sha256"
  /** The 64 hexadecimal digits of the test digest, written in two halves. */
  const TestHex: string := "238f32f98492b75484d1f00f8cfb91de" + "afd0d5b692ead87e2dadce9b718c1984"
  const TestDigest: string := TestAlgorithm + [':'] + TestHex

  /** Three labels joined by a separator that is not a label character form a chain of at least two pieces. */
  lemma ThreeLabels(a: string, b: string, c: string, sep: char)
    requires IsLabel(a) && IsLabel(b) && IsLabel(c) && !IsLabelChar(sep)
    ensures IsLabelChain(a + [sep] + (b + [sep] + c), sep)
    ensures |Split(a + [sep] + (b + [sep] + c), sep)| >= 2
  {
    LabelIsChain(a, sep);
    LabelIsChain(b, sep);
    LabelIsChain(c, sep);
    ChainConcat(b, sep, c);
    ChainConcat(a, sep, b + [sep] + c);
  }

  lemma RegistryOfTests()
    ensures IsDomain(TestRegistry)
  {
    ThreeLabels("my", "registry", "com", '.');
    RegistryJoined();
  }

  /** Spells out the literal the registry is joined into, so that the solver need not. */
  lemma RegistryJoined()
    ensures "my" + ['.'] + ("registry" + ['.'] + "com") == TestRegistry
  {
    assert "registry" + ['.'] + "com" == "registry.com";
  }

  lemma RepositoryOfTests()
    ensures IsRepositoryPath(TestRepository)
  {
    ThreeLabels("product", "app", "hello-world", '/');
    RepositoryJoined();
  }

  lemma RepositoryJoined()
    ensures "product" + ['/'] + ("app" + ['/'] + "hello-world") == TestRepository
  {
    assert "app" + ['/'] + "hello-world" == "app/hello-world";
  }

  lemma FlatRepositoryOfTests()
    ensures IsRepositoryPath(FlatRepository)
  {
    LabelIsChain(FlatRepository, '/');
  }

  lemma TagOfTests()
    ensures IsTag(TestTag)
  {
  }

  /** Each half of the test digest on its own, so that the solver checks 32 characters at a time. */
  lemma HexHalves()
    ensures IsHexString("238f32f98492b75484d1f00f8cfb91de")
    ensures IsHexString("afd0d5b692ead87e2dadce9b718c1984")
  {
  }

  lemma DigestOfTests()
    ensures IsDigest(TestDigest)
  {
    assert IsAlgorithm(TestAlgorithm);
    HexHalves();
    HexConcat("238f32f98492b75484d1f00f8cfb91de", "afd0d5b692ead87e2dadce9b718c1984");
    DigestOfParts(TestAlgorithm, TestHex);
  }

  lemma UpperCasePieces()
    ensures "UPPER_CASE/repo" == "UPPER" + "_CASE/repo"
    ensures IsRepositoryPath("UPPER")
  {
    LabelIsChain("UPPER", '/');
  }

  lemma PortPieces()
    ensures "host.com:5000/app" == "host" + ".com:5000/app"
    ensures IsRepositoryPath("host")
  {
    LabelIsChain("host", '/');
  }

  /**
   * The first dot of `host.com:5000/app` is followed by three label characters
   * and a colon; the literal is spelled out character by character for the solver.
   */
  lemma PortCharacters(s: string)
    requires s == "host.com:5000/app"
    ensures |s| > 8 && s[4] == '.' && s[8] == ':'
    ensures forall k | 0 <= k < 4 :: s[k] != '.'
    ensures forall k | 4 < k < 8 :: IsLabelChar(s[k])
  {
  }

  /** `localhost:5000/app`: a dot-free repository, then a colon and the port's digits, then a slash. */
  lemma LocalPortCharacters(s: string)
    requires s == "localhost:5000/app"
    ensures |s| == 18 && s[..9] == "localhost" && IsRepositoryPath("localhost")
    ensures forall k | 0 <= k < 9 :: IsLabelChar(s[k])
    ensures s[9] == ':' && s[10..14] == "5000" && IsTag("5000") && s[14] == '/'
  {
    LabelIsChain("localhost", '/');
  }

  lemma GluedPieces()
    ensures "ab.cdef" == "ab.cd" + "ef"
    ensures IsDomain("ab.cd") && IsLabel("ef")
  {
    LabelIsChain("ab", '.');
    LabelIsChain("cd", '.');
    ChainConcat("ab", '.', "cd");
    assert "ab" + ['.'] + "cd" == "ab.cd";
  }

  lemma AppRepository()
    ensures IsRepositoryPath("app")
  {
    LabelIsChain("app", '/');
  }

  /** Splits the literal `app@sha256:abc` at the end of its repository, for the solver. */
  lemma ShortDigestPieces()
    ensures "app@sha256:abc" == "app" + "@sha256:abc"
  {
  }

  lemma RepeatedTagPieces()
    ensures "app:v1:v2" == "app" + [':'] + "v1" + [':'] + "v2"
    ensures IsTag("v1") && IsTag("v2")
  {
  }

  lemma TagAndDigestPieces()
    ensures IsTag("v1") && IsDigest(TestDigest)
  {
    DigestOfTests();
  }
}
