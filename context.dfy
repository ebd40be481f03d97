/** The post-processing of `getContext`: the matches the vector search returns
    are filtered on their score, rendered as reference/content lines, joined
    with single spaces and cut to a maximal length. Embedding the message and
    searching are collaborators; their answer is the `matches` input. */
module Context {
  import opened Results
  import opened Strings

  /** The metadata fields the rendering reads; either may be absent. */
  datatype Metadata = Metadata(referenceURL: Option<string>, text: Option<string>)

  /** A scored search result. Scores are only compared, never computed with;
      the metadata may be absent altogether. */
  datatype Match = Match(id: string, score: Option<real>, metadata: Option<Metadata>)

  /** The two shapes `getContext` answers with. */
  datatype ContextResult = Text(text: string) | Records(matches: seq<Match>)

  const DefaultMaxCharacters := 5000
  const DefaultMinScore := 0.15
  const DefaultGetOnlyText := true

  /** What reading `referenceURL` off absent metadata throws; `getContext` re-throws it. */
  const MetadataError := "TypeError: Cannot read properties of undefined (reading 'referenceURL')"

  const UrlLabel := "REFERENCE URL: "
  const ContentLabel := " CONTENT: "

  /** `m.score && m.score > minScore`: an absent score and a score of zero are
      falsy and drop the match even when `minScore` is below zero. */
  predicate Qualifies(m: Match, minScore: real) {
    m.score.Some? && m.score.value != 0.0 && m.score.value > minScore
  }

  /** The qualifying matches, in their order and with their repetitions. */
  function Qualifying(ms: seq<Match>, minScore: real): (r: seq<Match>)
    ensures |r| <= |ms|
    ensures forall m :: m in r <==> m in ms && Qualifies(m, minScore)
  {
    if ms == [] then []
    else
      var rest := Qualifying(ms[1..], minScore);
      assert forall m :: m in ms <==> m == ms[0] || m in ms[1..];
      if Qualifies(ms[0], minScore) then [ms[0]] + rest else rest
  }

  /** A qualifying match is kept as many times as it occurs; any other, never. */
  lemma {:induction false} QualifyingCounts(ms: seq<Match>, minScore: real, m: Match)
    ensures multiset(Qualifying(ms, minScore))[m] == if Qualifies(m, minScore) then multiset(ms)[m] else 0
  {
    if ms != [] {
      QualifyingCounts(ms[1..], minScore, m);
      assert ms == [ms[0]] + ms[1..];
    }
  }

  /** Filtering a concatenation filters each part in turn: the kept matches
      stay in their original order. */
  lemma {:induction false} QualifyingAppend(a: seq<Match>, b: seq<Match>, minScore: real)
    ensures Qualifying(a + b, minScore) == Qualifying(a, minScore) + Qualifying(b, minScore)
  {
    if a != [] {
      assert (a + b)[0] == a[0];
      assert (a + b)[1..] == a[1..] + b;
      QualifyingAppend(a[1..], b, minScore);
      var rest := Qualifying(a[1..], minScore) + Qualifying(b, minScore);
      if Qualifies(a[0], minScore) {
        assert Qualifying(a + b, minScore) == [a[0]] + rest;
      } else {
        assert Qualifying(a + b, minScore) == rest;
      }
    } else {
      assert a + b == b;
    }
  }

  /** A template literal renders an absent value as "undefined". */
  function Render(v: Option<string>): string {
    if v.Some? then v.value else "undefined"
  }

  /** Every match carries metadata, so each can be rendered. */
  predicate HasMetadata(ms: seq<Match>) {
    forall i :: 0 <= i < |ms| ==> ms[i].metadata.Some?
  }

  /** One match with metadata as a context line. */
  function Format(m: Match): (line: string)
    requires m.metadata.Some?
    ensures IsPrefix(UrlLabel, line)
    ensures line[|UrlLabel|..] == Render(m.metadata.value.referenceURL) + ContentLabel + Render(m.metadata.value.text)
  {
    var md := m.metadata.value;
    UrlLabel + Render(md.referenceURL) + ContentLabel + Render(md.text)
  }

  /** Every match rendered, in order. */
  function Lines(ms: seq<Match>): (r: seq<string>)
    requires HasMetadata(ms)
    ensures |r| == |ms| && forall i :: 0 <= i < |ms| ==> r[i] == Format(ms[i])
  {
    seq(|ms|, i requires 0 <= i < |ms| => Format(ms[i]))
  }

  /** `s.substring(0, n)`: a negative end counts as zero, an end past the
      string as its length. */
  function Prefix(s: string, n: int): string {
    if n <= 0 then "" else if n >= |s| then s else s[..n]
  }

  /** `s.length > max ? s.substring(0, max) : s`: the text is kept whole when it
      fits and otherwise cut to its first `max` characters (none when `max` is
      not positive). */
  function Truncate(s: string, maxCharacters: int): (r: string)
    ensures |r| <= if maxCharacters < 0 then 0 else maxCharacters
    ensures IsPrefix(r, s)
    ensures r == s <==> |s| <= maxCharacters || s == ""
    ensures |s| > maxCharacters >= 0 ==> |r| == maxCharacters
  {
    if |s| > maxCharacters then Prefix(s, maxCharacters) else s
  }

  /** The text before truncation: the qualifying matches' lines joined by single spaces. */
  function Joined(matches: seq<Match>, minScore: real): string
    requires HasMetadata(Qualifying(matches, minScore))
  {
    Join(Lines(Qualifying(matches, minScore)), " ")
  }

  /** `getContext` from the search results onward. With `getOnlyText` false the
      qualifying matches are the answer. Otherwise rendering rejects exactly
      when a qualifying match has no metadata; when it succeeds the text is
      never longer than `maxCharacters`, always a prefix of the joined lines,
      and equal to them exactly when they fit (or are empty). */
  function GetContext(matches: seq<Match>, maxCharacters: int := DefaultMaxCharacters,
                      minScore: real := DefaultMinScore, getOnlyText: bool := DefaultGetOnlyText)
    : (r: Result<ContextResult>)
    ensures !getOnlyText ==> r == Ok(Records(Qualifying(matches, minScore)))
    ensures getOnlyText ==> (r.Ok? <==> HasMetadata(Qualifying(matches, minScore)))
    ensures r.Err? ==> r.error == MetadataError
    ensures getOnlyText && HasMetadata(Qualifying(matches, minScore)) ==>
      var joined := Joined(matches, minScore);
      && r.Ok? && r.value.Text?
      && |r.value.text| <= (if maxCharacters < 0 then 0 else maxCharacters)
      && IsPrefix(r.value.text, joined)
      && (r.value.text == joined <==> |joined| <= maxCharacters || joined == "")
  {
    var qualifying := Qualifying(matches, minScore);
    if !getOnlyText then Ok(Records(qualifying))
    else if !HasMetadata(qualifying) then Err(MetadataError)
    else Ok(Text(Truncate(Join(Lines(qualifying), " "), maxCharacters)))
  }

  /** With no qualifying match the text is empty, whatever the limit. */
  lemma NothingQualifiesGivesEmpty(matches: seq<Match>, maxCharacters: int, minScore: real)
    requires forall m :: m in matches ==> !Qualifies(m, minScore)
    ensures GetContext(matches, maxCharacters, minScore, true) == Ok(Text(""))
  {
    NoMemberEmpty(Qualifying(matches, minScore));
  }

  /** A qualifying match without metadata makes the text form reject, while
      the record form still returns it. */
  lemma MissingMetadataRejects(matches: seq<Match>, maxCharacters: int, minScore: real, m: Match)
    requires m in matches && Qualifies(m, minScore) && m.metadata.None?
    ensures GetContext(matches, maxCharacters, minScore, true) == Err(MetadataError)
    ensures m in GetContext(matches, maxCharacters, minScore, false).value.matches
  {
    var q := Qualifying(matches, minScore);
    assert m in q;
    var i :| 0 <= i < |q| && q[i] == m;
  }

  /** No deduplication: a qualifying match that the search returns twice is
      rendered twice, one space apart. */
  lemma RepeatedMatchRepeated(m: Match, minScore: real)
    requires Qualifies(m, minScore) && m.metadata.Some?
    ensures Joined([m, m], minScore) == Format(m) + " " + Format(m)
  {
    var line := Format(m);
    assert Qualifying([m, m], minScore) == [m, m] by {
      assert [m, m][1..] == [m];
    }
    assert Lines([m, m]) == [line, line];
    TwoLines(line);
  }

  lemma TwoLines(line: string)
    ensures Join([line, line], " ") == line + " " + line
  {
    assert [line, line][1..] == [line];
  }

  /** The joined text has each line once plus one space between neighbours. */
  function TotalLength(lines: seq<string>): nat {
    if lines == [] then 0 else |lines[0]| + TotalLength(lines[1..])
  }

  lemma {:induction false} JoinedLength(lines: seq<string>)
    requires lines != []
    ensures |Join(lines, " ")| == TotalLength(lines) + |lines| - 1
  {
    if |lines| > 1 {
      JoinedLength(lines[1..]);
    }
  }
}
