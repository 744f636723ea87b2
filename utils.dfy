/** The pure helpers of Utils.kt: ABI-based artifact selection, extraction of a
    version name `tag-N-ghash` from a CI artifact's file name, parsing such a
    name back into its parts, and `parallelMap`. */
module Utils {
  import opened Wrappers
  import opened KotlinText

  /** A build artifact as the CI server lists it. */
  datatype Artifact = Artifact(fileName: string, relativePath: string, url: string)

  /** The artifacts `selectByABI` accepts: an `.apk` whose name mentions the ABI. */
  predicate MatchesABI(a: Artifact, abi: string) {
    EndsWith(a.fileName, ".apk") && Contains(a.fileName, abi)
  }

  /** `List<Artifact>.selectByABI()`: the first accepted artifact, if any. */
  function SelectByABI(artifacts: seq<Artifact>, abi: string): (r: Option<Artifact>)
    ensures r.Some? ==> exists i :: (0 <= i < |artifacts| && artifacts[i] == r.value
      && MatchesABI(artifacts[i], abi)
      && forall j :: 0 <= j < i ==> !MatchesABI(artifacts[j], abi))
    ensures r.None? <==> forall i :: 0 <= i < |artifacts| ==> !MatchesABI(artifacts[i], abi)
  {
    if artifacts == [] then None
    else if MatchesABI(artifacts[0], abi) then
      Some(artifacts[0])
    else
      var r := SelectByABI(artifacts[1..], abi);
      assert forall i :: 1 <= i < |artifacts| ==> artifacts[i] == artifacts[1..][i - 1];
      r
  }

  // ---- the regular expression \S*-([^-]+)-([^-]+)-g([^-]+)-\S* under Regex.find ----

  /** Java's `\s`: space, tab, newline, vertical tab, form feed, carriage return. */
  predicate IsWhitespace(c: char) {
    c == ' ' || c == '\t' || c == '\n' || c == 11 as char || c == 12 as char || c == '\r'
  }

  /** The three captured groups of a match. */
  datatype Groups = Groups(tag: string, commits: string, hash: string)

  /** The end of the run of non-dash characters that starts at `i`. */
  function RunEnd(s: string, i: nat): (j: nat)
    requires i <= |s|
    ensures i <= j <= |s| && (j < |s| ==> s[j] == '-')
    ensures forall k :: i <= k < j ==> s[k] != '-'
    decreases |s| - i
  {
    if i == |s| || s[i] == '-' then i else RunEnd(s, i + 1)
  }

  /** The end of the run of non-whitespace characters that starts at `i`. */
  function SpaceEnd(s: string, i: nat): (j: nat)
    requires i <= |s|
    ensures i <= j <= |s| && (j < |s| ==> IsWhitespace(s[j]))
    ensures forall k :: i <= k < j ==> !IsWhitespace(s[k])
    decreases |s| - i
  {
    if i == |s| || IsWhitespace(s[i]) then i else RunEnd'(s, i)
  }

  // SpaceEnd's recursive step, kept separate so that each function has one measure.
  function RunEnd'(s: string, i: nat): (j: nat)
    requires i < |s| && !IsWhitespace(s[i])
    ensures i < j <= |s| && (j < |s| ==> IsWhitespace(s[j]))
    ensures forall k :: i <= k < j ==> !IsWhitespace(s[k])
    decreases |s| - i
  {
    if i + 1 == |s| || IsWhitespace(s[i + 1]) then i + 1 else RunEnd'(s, i + 1)
  }

  /** What every captured group is: non-empty and free of '-'. */
  predicate WellFormed(g: Groups) {
    g.tag != [] && '-' !in g.tag && g.commits != [] && '-' !in g.commits
    && g.hash != [] && '-' !in g.hash
  }

  /** The text `"-$tag-$commits-g$hash-"` that a match spells out after its `\S*`. */
  function Spelled(g: Groups): string {
    "-" + g.tag + "-" + g.commits + "-g" + g.hash + "-"
  }

  /** Dashes at `p`, `e1`, `e2` and `e3` with a `g` after `e2` spell out the
      groups between them. */
  lemma SpelledBetween(s: string, p: nat, e1: nat, e2: nat, e3: nat)
    requires p < e1 < e2 && e2 + 2 <= e3 < |s|
    requires s[p] == '-' && s[e1] == '-' && s[e2] == '-' && s[e2 + 1] == 'g' && s[e3] == '-'
    ensures s[p..e3 + 1] == Spelled(Groups(s[p + 1..e1], s[e1 + 1..e2], s[e2 + 2..e3]))
  {
    assert s[p..e3 + 1] == [s[p]] + s[p + 1..e1] + [s[e1]] + s[e1 + 1..e2] + [s[e2], s[e2 + 1]] + s[e2 + 2..e3] + [s[e3]];
  }

  /** The part `-([^-]+)-([^-]+)-g([^-]+)-` of the pattern, matched with its first
      dash at `p`. Each `[^-]+` can only take its whole run of non-dash characters,
      because a dash must follow it. */
  function MatchTail(s: string, p: nat): (r: Option<Groups>)
    requires p < |s|
    ensures r.Some? ==> s[p] == '-' && WellFormed(r.value) && Spelled(r.value) <= s[p..]
  {
    if s[p] != '-' then None
    else
      var e1 := RunEnd(s, p + 1);
      if e1 == p + 1 || e1 == |s| then None
      else
        var e2 := RunEnd(s, e1 + 1);
        if e2 == e1 + 1 || e2 + 1 >= |s| || s[e2 + 1] != 'g' then None
        else
          var e3 := RunEnd(s, e2 + 2);
          if e3 == e2 + 2 || e3 == |s| then None
          else
            var g := Groups(s[p + 1..e1], s[e1 + 1..e2], s[e2 + 2..e3]);
            SpelledBetween(s, p, e1, e2, e3);
            Some(g)
  }

  /** The leading `\S*` is greedy: from a start `st`, the engine tries the dash
      positions in `[st, p)` from the last one down. */
  function LastMatch(s: string, st: nat, p: nat): (r: Option<Groups>)
    requires st <= p <= |s|
    ensures r.Some? ==> WellFormed(r.value)
    ensures r.Some? ==> exists q :: st <= q < p && MatchTail(s, q) == r
    ensures r.None? ==> forall q :: st <= q < p ==> MatchTail(s, q).None?
    decreases p
  {
    if p == st then None
    else if MatchTail(s, p - 1).Some? then MatchTail(s, p - 1)
    else LastMatch(s, st, p - 1)
  }

  /** `Regex.find`: the first start position from which the pattern matches;
      from `st` the leading `\S*` can reach only up to the next whitespace. */
  function FindFrom(s: string, st: nat): (r: Option<Groups>)
    requires st <= |s|
    ensures r.Some? ==> WellFormed(r.value)
    ensures r.Some? ==> exists q :: st <= q < |s| && MatchTail(s, q) == r
    decreases |s| - st
  {
    var r := LastMatch(s, st, SpaceEnd(s, st));
    if r.Some? then r
    else if st == |s| then None
    else FindFrom(s, st + 1)
  }

  function Find(s: string): Option<Groups> { FindFrom(s, 0) }

  /** The pattern is found exactly when the tail matches at some dash. */
  lemma {:induction false} FindFromComplete(s: string, st: nat, q: nat)
    requires st <= q < |s| && MatchTail(s, q).Some?
    ensures FindFrom(s, st).Some?
    decreases q - st
  {
    var w := SpaceEnd(s, st);
    if q < w {
      assert LastMatch(s, st, w).Some?;
    } else {
      assert s[q] == '-';
      assert st < q;
      FindFromComplete(s, st + 1, q);
      FindFromStep(s, st);
    }
  }

  /** A match found from the next position is found from this one. */
  lemma FindFromStep(s: string, st: nat)
    requires st < |s| && FindFrom(s, st + 1).Some?
    ensures FindFrom(s, st).Some?
  {
  }

  lemma FindComplete(s: string)
    ensures Find(s).None? <==> forall q :: 0 <= q < |s| ==> MatchTail(s, q).None?
  {
    if !(forall q :: 0 <= q < |s| ==> MatchTail(s, q).None?) {
      var q :| 0 <= q < |s| && MatchTail(s, q).Some?;
      FindFromComplete(s, 0, q);
    }
  }

  /** The version name: `"$tag-$commitInc-g$hash"`. */
  function VersionName(tag: string, commitInc: int, hash: string): string {
    tag + "-" + IntToString(commitInc) + "-g" + hash
  }

  /** `Artifact.extractVersionName()`: null when the pattern is not found or
      when the second group is not an `Int`. */
  function ExtractVersionName(a: Artifact): Option<string> {
    match Find(a.fileName)
    case None => None
    case Some(g) =>
      match ToIntOrNull(g.commits)
      case None => None
      case Some(n) => Some(VersionName(g.tag, n, g.hash))
  }

  /** What `extractVersionName` returns is a `tag-N-ghash` made of the groups of
      the match, whose tag and hash are non-empty and dash-free and whose N is the
      non-negative `Int` read from the second group. */
  lemma ExtractVersionNameShape(a: Artifact)
    requires ExtractVersionName(a).Some?
    ensures Find(a.fileName).Some? && WellFormed(Find(a.fileName).value)
    ensures var g := Find(a.fileName).value;
      && ToIntOrNull(g.commits).Some?
      && 0 <= ToIntOrNull(g.commits).value <= IntMax
      && ExtractVersionName(a) == Some(VersionName(g.tag, ToIntOrNull(g.commits).value, g.hash))
  {
    var g := Find(a.fileName).value;
    assert g.commits[0] != '-';
  }

  /** A second group that is not an `Int` makes `extractVersionName` null. */
  lemma ExtractRejectsNonInteger(a: Artifact)
    requires Find(a.fileName).Some? && ToIntOrNull(Find(a.fileName).value.commits).None?
    ensures ExtractVersionName(a).None?
  {
  }

  /** The parts of a version name. */
  datatype VersionNumber = VersionNumber(tag: string, commitInc: int, hash: string)

  datatype ParseError = NotThreePieces | NotAnInt(piece: string)

  /** `parseVersionNumber`: split on '-', require exactly three pieces, read the
      middle one as an `Int` and drop the first character of the last one. */
  function ParseVersionNumber(raw: string): (r: Result<VersionNumber, ParseError>)
    ensures r.Success? <==> |Split(raw, '-')| == 3 && ToIntOrNull(Split(raw, '-')[1]).Some?
    ensures r.Success? ==> (r.value.tag == Split(raw, '-')[0]
      && Some(r.value.commitInc) == ToIntOrNull(Split(raw, '-')[1])
      && r.value.hash == Drop(Split(raw, '-')[2], 1))
  {
    var g := Split(raw, '-');
    if |g| != 3 then Failure(NotThreePieces)
    else match ToIntOrNull(g[1])
      case None => Failure(NotAnInt(g[1]))
      case Some(n) => Success(VersionNumber(g[0], n, Drop(g[2], 1)))
  }

  /** The commit count of a parsed name is never negative: the middle piece of
      a split on '-' holds no minus sign. */
  lemma ParsedCommitsNonNegative(raw: string)
    requires ParseVersionNumber(raw).Success?
    ensures 0 <= ParseVersionNumber(raw).value.commitInc <= IntMax
  {
    SplitPiecesAvoidSeparator(raw, '-');
    var middle := Split(raw, '-')[1];
    assert '-' !in middle;
    assert middle[0] != '-';
  }

  /** Parsing a well-formed version name gives back its parts. */
  lemma {:induction false} ParseVersionName(tag: string, n: int, hash: string)
    requires '-' !in tag && '-' !in hash && 0 <= n <= IntMax
    ensures ParseVersionNumber(VersionName(tag, n, hash)) == Success(VersionNumber(tag, n, hash))
  {
    var num := IntToString(n);
    assert '-' !in num by {
      assert num == NatToString(n);
    }
    assert '-' !in "g" + hash;
    var raw := VersionName(tag, n, hash);
    assert raw == tag + ['-'] + (num + ['-'] + ("g" + hash));
    SplitAtFirstSeparator(tag, '-', num + ['-'] + ("g" + hash));
    SplitAtFirstSeparator(num, '-', "g" + hash);
    SplitWithoutSeparator("g" + hash, '-');
    IntToStringRoundTrip(n);
    assert Drop("g" + hash, 1) == hash;
  }

  /** Round trip: whenever `extractVersionName` yields a name, `parseVersionNumber`
      recovers exactly the tag, commit count and hash that were captured. */
  lemma ExtractThenParse(a: Artifact)
    requires ExtractVersionName(a).Some?
    ensures var g := Find(a.fileName).value;
      ParseVersionNumber(ExtractVersionName(a).value)
        == Success(VersionNumber(g.tag, ToIntOrNull(g.commits).value, g.hash))
  {
    ExtractVersionNameShape(a);
    var g := Find(a.fileName).value;
    ParseVersionName(g.tag, ToIntOrNull(g.commits).value, g.hash);
  }

  /** `parallelMap`: runs `f` on every element concurrently and awaits them all;
      its value is `map f` over the input, in the input's order. */
  function ParallelMap<A, B>(xs: seq<A>, f: A -> B): (r: seq<B>)
    ensures |r| == |xs|
    ensures forall i :: 0 <= i < |xs| ==> r[i] == f(xs[i])
  {
    if xs == [] then [] else [f(xs[0])] + ParallelMap(xs[1..], f)
  }
}
