# Artifact reference parser

A model of `ArtifactReference` from `libraries/artifact.py`. This class recognises
container-image references such as `my.registry.com/product/app/hello-world:v1.0`
or `product/app/hello-world@sha256:<hex>`. Its constructor builds one pattern:

    (domain)?/?(repository)(?:(?::(tag))|(?:@(digest)))*

It applies that pattern with Python's `re.match` and keeps the four captured
groups. The getters return those groups unchanged. If nothing matches, the
constructor raises `ArtifactInitializationException` with a fixed message.

The model works on the meaning of the pattern rather than on a regex engine.

- **Grammar** (`grammar.dfy`) states each fragment of the pattern as a predicate on strings:
  - a label is `[A-Za-z0-9][A-Za-z0-9-]*[A-Za-z0-9]`;
  - a domain is labels joined by dots, with at least one dot;
  - a repository is labels joined by slashes;
  - a tag is `\w[\w.-]{0,127}`;
  - a digest is `algorithm:hex`, with 32 or more hexadecimal digits.
- **Scanners** (`scanner.dfy`) return where each fragment ends. Each contract says the end is that of the LONGEST fragment, because every repetition in the pattern is greedy.
  - The registry is the one searched fragment. It is the longest domain prefix after which a repository can still start, after an optional slash.
  - The suffix loop takes tags and digests until neither fits.
- **Construction** (`artifact.dfy`) is the function `NewArtifactReference`.
  - It returns `Success` with the groups of the greedy match, or `Failure` with the fixed message.
  - A repeated group keeps its last capture, so the tag and the digest are those of the last iteration that set them.
- **Properties** (`properties.dfy`) are:
  - the shape of each group;
  - when a registry cannot be chosen;
  - where tags and digests stop.
- **Trailing text** (`trailing.dfy`) shows what anchoring at the start only implies:
  - the match covers a prefix of the input;
  - cutting the input after that prefix gives the same reference;
  - appending text never makes construction fail.
- **Composition** (`composition.dfy`) reads the pattern backwards. Text built from a domain, a slash, a repository path and well-formed tags and digests is parsed back into exactly those groups.
- **Edge cases** (`edge_cases.dfy`) cover:
  - inputs too short or with a bad first character;
  - a repository followed by unread text;
  - a registry that runs into the repository when the slash is left out.
- **Examples** (`example_pieces.dfy`, `reference_examples.dfy`) cover:
  - the six references of `tests/test_artifact_reference.py` with the groups the tests expect;
  - inputs on the edges of the pattern.

The tests call `get_repository_name`, `get_image_tag` and `get_image_sha`, but
`libraries/artifact.py` defines no such methods. The examples state the tests'
expectations through the getters that exist:
- `get_repository` is `GetRepository`;
- `get_tag` is `GetTag`;
- `get_sha` is `GetSha`.

The code behaves as follows where a reader might expect otherwise, and the model follows the code:
- a reference can have both a tag and a digest;
- text after the recognised prefix is ignored, not rejected;
- the error message is fixed and does not carry the input;
- there is no `:port` after the registry, although the help text of scripts/registry-resolution/resolve_registry_endpoint.py:57 lists `[registry-name].[domain]:[port]/[repository]:[tag-or-sha]` as a format. `host.com:5000/app` has no registry, and its repository is `host`. `localhost:5000/app` has no registry either: its repository is `localhost`, the port `5000` is read as its tag, and `/app` is ignored.
- uppercase letters are accepted in labels. `UPPER_CASE/repo` is a reference whose repository is `UPPER`.

## Model

| member | source | states |
|---|---|---|
| ReferenceGrammar.DomainChars | libraries/artifact.py:21 | a domain contains a dot, and every other character of it is a label character |
| ReferenceGrammar.LabelChainEnds | libraries/artifact.py:22 | a repository path (or domain) is at least two characters long and starts and ends with an alphanumeric |
| ReferenceGrammar.DigestOfParts | libraries/artifact.py:24 | an algorithm, a colon and at least 32 hexadecimal digits form a digest |
| ReferenceScanner.LabelEnd | libraries/artifact.py:22 | returns the end of the longest label at i, or None exactly when no label starts there |
| ReferenceScanner.RepositoryEnd | libraries/artifact.py:22 | returns the end of the longest repository path at q; every repository path at q ends no later |
| ReferenceScanner.RepositoryStart | libraries/artifact.py:42 | the optional slash: the repository starts at e, or at e + 1 exactly when a slash there is followed by a label; None exactly when no repository can start |
| ReferenceScanner.RegistryEnd | libraries/artifact.py:21 | returns the longest prefix that is a domain followed by a possible repository start; None exactly when there is none |
| ReferenceScanner.TagEnd | libraries/artifact.py:23 | returns the end of the longest colon-and-tag fragment at p; every such fragment ends no later |
| ReferenceScanner.TagRun | libraries/artifact.py:23 | the longest tag fragment stops at the end of the run of tag characters, or after 128 characters, whichever comes first |
| ReferenceScanner.AlgorithmEnd | libraries/artifact.py:24 | returns the end of the longest digest algorithm at i, or None exactly when none starts there |
| ReferenceScanner.DigestFragments | libraries/artifact.py:24 | the digest fragments at p are exactly those that end between 32 hex digits after the colon and the end of the hex run |
| ReferenceScanner.DigestEnd | libraries/artifact.py:24 | returns the end of the longest at-sign-and-digest fragment at p; every such fragment ends no later |
| ReferenceScanner.Suffixes | libraries/artifact.py:42 | the tag-or-digest loop from p: each iteration takes the longest tag, else the longest digest, until neither fits |
| ReferenceScanner.IterationUnique | libraries/artifact.py:42 | at most one tag or digest iteration can be taken at a position |
| ReferenceScanner.SuffixLoopUnique | libraries/artifact.py:42 | the loop's iterations from a position are determined by the input |
| ReferenceScanner.SuffixLoopText | libraries/artifact.py:42 | the text of the loop's iterations lies in the input where the loop starts, and each iteration is a well-formed tag or digest |
| Artifact.MatchReference | libraries/artifact.py:42-47 | None exactly when neither a registry with a repository after it nor a repository at the start exists; otherwise the greedy match |
| Artifact.RegistryGroup | libraries/artifact.py:42 | the first group is the registry choice: the longest domain prefix followed by a possible repository start, else None |
| Artifact.RepositoryAt | libraries/artifact.py:42 | where a label starts, the second group is the longest repository path from there |
| Artifact.FailureCondition | libraries/artifact.py:45-50 | the pattern fails to match exactly when no repository can start at position 0, after an optional slash |
| Artifact.GreedyMatchUnique | libraries/artifact.py:42 | the greedy match of an input is unique |
| Artifact.GreedyMatchIsTheMatch | libraries/artifact.py:47 | a greedy match of the input is the match construction uses |
| Artifact.LastTag | libraries/artifact.py:85 | the tag group is the tag of an iteration after which no iteration is a tag; None exactly when no iteration is a tag |
| Artifact.LastDigest | libraries/artifact.py:96 | the digest group is the digest of an iteration after which no iteration is a digest; None exactly when no iteration is a digest |
| Artifact.LastTagOfConcat | libraries/artifact.py:42 | for any split of the iterations, the tag group is the later part's last tag, or the earlier part's when the later part has no tag |
| Artifact.LastDigestOfConcat | libraries/artifact.py:42 | for any split of the iterations, the digest group is the later part's last digest, or the earlier part's when the later part has no digest |
| Artifact.NewArtifactReference | libraries/artifact.py:39-50 | fails exactly when no repository can start at 0, always with the one fixed message; otherwise keeps the input and the groups of a greedy match |
| Artifact.GettersOfMatch | libraries/artifact.py:54-96 | the four getters return the registry, the repository, the last tag and the last digest of the greedy match |
| ReferenceProperties.RegistryShape | libraries/artifact.py:21 | a registry is a prefix of the input and a domain containing a dot |
| ReferenceProperties.NoDotNoRegistry | libraries/artifact.py:21 | if the leading run of label characters is followed by neither a dot nor another label character, there is no registry |
| ReferenceProperties.ShortLastLabelNoRegistry | libraries/artifact.py:21 | with no port in the domain pattern, a first dot followed by fewer than four label characters and then a colon leaves no registry |
| ReferenceProperties.RegistryEndsBefore | libraries/artifact.py:21 | the registry ends before the first character that is neither a label character nor a dot |
| ReferenceProperties.RepositoryShape | libraries/artifact.py:22 | the repository is a slash-joined path of labels, at least two characters, with alphanumerics at both ends |
| ReferenceProperties.RepositoryStopsAt | libraries/artifact.py:22 | a repository path followed by the end, or by a character that is neither a label character nor a slash, is the longest one |
| ReferenceProperties.SuffixShape | libraries/artifact.py:23-24 | every captured tag is 1 to 128 characters and starts with a word character; every captured digest is a well-formed digest |
| ReferenceProperties.TagStops | libraries/artifact.py:23 | a captured tag is 128 characters long, or is followed by the end or by a character that cannot be in a tag |
| ReferenceProperties.TagIterationAt | libraries/artifact.py:23 | a tag fragment that cannot be extended is the loop's iteration there |
| ReferenceProperties.DigestLength | libraries/artifact.py:24 | a digest is at least 34 characters long |
| ReferenceProperties.DigestColon | libraries/artifact.py:24 | the digest's algorithm contains no colon |
| ReferenceProperties.DigestIterationAt | libraries/artifact.py:24 | a digest fragment followed by the end or by a non-hex character is the loop's iteration there |
| ReferenceProperties.DigestExtends | libraries/artifact.py:24 | a longer digest fragment at the same position adds hexadecimal digits |
| ReferenceProperties.LoopStopsAt | libraries/artifact.py:42 | at the end, or before a character that is neither a colon nor an at-sign, the loop takes nothing |
| ReferenceProperties.LoopStopsAtShortDigest | libraries/artifact.py:24 | an at-sign with too few characters after it for a digest ends the loop without error |
| TrailingText.MatchedPrefix | libraries/artifact.py:47 | the text a match consumed is a prefix of the input |
| TrailingText.TrailingTextIgnored | libraries/artifact.py:47 | cutting the input right after the consumed text leaves the same greedy match |
| TrailingText.PrefixHasSameReference | libraries/artifact.py:47 | the input and its matched prefix yield the same match |
| TrailingText.MatchSurvivesAppend | libraries/artifact.py:47 | appending text to an input that matches leaves an input that matches |
| ReferenceComposition.NoRegistryBeforeRepository | libraries/artifact.py:21 | a repository path at the start, followed by the end or a character that can be in no domain, leaves no registry |
| ReferenceComposition.SuffixLoopOfText | libraries/artifact.py:42 | where the input ends with the text of well-formed tags and digests, the loop takes exactly those |
| ReferenceComposition.AssembledIsGreedy | libraries/artifact.py:42 | text assembled from a domain and slash, a repository path and well-formed suffixes has exactly those pieces as its greedy match |
| ReferenceComposition.AssembledRoundTrip | libraries/artifact.py:42-96 | construction from such text succeeds and the getters return the domain, the repository, the last tag and the last digest it was assembled from |
| ReferenceEdgeCases.ShortInputFails | libraries/artifact.py:45-50 | an input of fewer than two characters fails with the fixed message |
| ReferenceEdgeCases.BadFirstCharacterFails | libraries/artifact.py:45-50 | an input starting with neither an alphanumeric nor a slash fails with the fixed message |
| ReferenceEdgeCases.RepositoryWithSuffixes | libraries/artifact.py:47 | with no registry, a repository followed by text that continues neither a label nor a path gives that repository and the last tag and digest of the suffixes the loop takes; the rest is ignored |
| ReferenceEdgeCases.OnlyRepository | libraries/artifact.py:47 | with no registry, a repository followed by text the loop does not take gives that repository, no tag and no digest; the rest is ignored |
| ReferenceEdgeCases.GluedRegistry | libraries/artifact.py:42 | a domain followed directly by a two-character label gives that domain as registry and the label as repository |
| ReferenceExamples.TaggedReference | libraries/artifact.py:42-96 | registry, repository and one tag are read back as registry, repository and tag, with no digest |
| ReferenceExamples.DigestedReference | libraries/artifact.py:42-96 | registry, repository and one digest are read back as registry, repository and digest, with no tag |
| ReferenceExamples.BareReference | libraries/artifact.py:42-96 | a bare repository path gives no registry, the whole path, and neither tag nor digest |
| ReferenceExamples.TwoSuffixReference | libraries/artifact.py:42-96 | a repository followed by two suffixes gives the last tag and the last digest among them |
| ReferenceExamples.FullyQualifiedWithTag | tests/test_artifact_reference.py:52-90 | `my.registry.com/product/app/hello-world:v1.0` gives registry `my.registry.com`, repository `product/app/hello-world`, tag `v1.0`, no sha |
| ReferenceExamples.FullyQualifiedWithSha | tests/test_artifact_reference.py:52-90 | the same with `@sha256:238f…1984` gives the same registry and repository, no tag, sha `sha256:238f…1984` |
| ReferenceExamples.ShortWithTag | tests/test_artifact_reference.py:52-90 | `product/app/hello-world:v1.0` gives no registry, repository `product/app/hello-world`, tag `v1.0`, no sha |
| ReferenceExamples.ShortWithSha | tests/test_artifact_reference.py:52-90 | `product/app/hello-world@sha256:238f…1984` gives no registry, that repository, no tag, the sha |
| ReferenceExamples.HierarchicalRepository | tests/test_artifact_reference.py:52-90 | `product/app/hello-world` gives no registry, that repository, no tag, no sha |
| ReferenceExamples.FlatRepositoryReference | tests/test_artifact_reference.py:52-90 | `hello-world` gives no registry, repository `hello-world`, no tag, no sha |
| ReferenceExamples.EmptyInputFails | libraries/artifact.py:45-50 | the empty string fails with the fixed message |
| ReferenceExamples.OneCharacterFails | libraries/artifact.py:45-50 | `a` fails with the fixed message |
| ReferenceExamples.LeadingHyphenFails | libraries/artifact.py:45-50 | `-app` fails with the fixed message |
| ReferenceExamples.LeadingColonFails | libraries/artifact.py:45-50 | `:v1` fails with the fixed message |
| ReferenceExamples.UpperCaseRepository | libraries/artifact.py:22 | `UPPER_CASE/repo` gives repository `UPPER`, and the rest is ignored |
| ReferenceExamples.PortIsNotRegistry | libraries/artifact.py:21 | `host.com:5000/app` gives no registry and repository `host` |
| ReferenceExamples.LocalPortIsTag | libraries/artifact.py:21-24 | `localhost:5000/app` gives no registry, repository `localhost`, tag `5000` and no sha; `/app` is ignored |
| ReferenceExamples.RegistryWithoutSlash | libraries/artifact.py:42 | `ab.cdef` gives registry `ab.cd` and repository `ef` |
| ReferenceExamples.ShortDigestIgnored | libraries/artifact.py:24 | `app@sha256:abc` succeeds with repository `app` and neither tag nor sha |
| ReferenceExamples.LastTagKept | libraries/artifact.py:42 | `app:v1:v2` gives tag `v2` |
| ReferenceExamples.TagAndDigestBothKept | libraries/artifact.py:42 | `app:v1@sha256:238f…1984` sets both tag `v1` and the sha |

## Left out

- `\w` is modelled as ASCII `[A-Za-z0-9_]`. Python's `\w` also matches Unicode letters and digits in tags. There is no Unicode character database to model it against.
- The "Unknown error" branch (libraries/artifact.py:51-52) is not modelled. It handles inputs that are not strings, and the model's input is always a string.
- The regex engine and its backtracking are not modelled. The model states the meaning of the pattern: every fragment is the longest one, and the registry is the longest domain after which a repository can start. That is the order in which the engine would find a match.
- The engine's search cost is not modelled. The nested `(?:label){1,63}` in the domain fragment (libraries/artifact.py:21) lets `re.match` try many ways of splitting a long dot-free run of label characters into labels before it gives up on a domain, which can take exponential time. The model is a total function and says nothing about running time.
- The `{1,63}` repetition of labels inside a domain (libraries/artifact.py:21) is not a separate rule. Two labels written one after the other form a label again, so the repetition does not change which strings are domains.
- The exception is a `Failure` value carrying the message, not a raised exception. The input string is kept as `refStr` on success.
- Normalisation, default registries or tags, ports and turning a reference back into a string are not modelled. The code has none of them. `MatchedText` is only the text the pattern consumed, used to state what the pattern matches.
- `libraries/authenticator.py` and the scripts under `scripts/` are not part of this model. They are network calls, console interaction and logging setup.
