/** `questions_for_request`: for every defect type in catalog order, one
    detection call to the text-generation service, whose reply is split on
    commas into segments, then one question call per segment that is not
    the "no defect found" reply; each question becomes a row of the result
    table. */
module Pipeline {
  import opened Text
  import opened Wrappers
  import opened Catalog
  import opened Prompts

  /** One row of the result table. `answer` is the column that the answer
      write-back adds later; rows are created without one. */
  datatype Finding = Finding(
    originalRequest: string,
    originalTitle: Option<string>,
    detectPrompt: string,
    segment: string,
    defectType: string,
    questionPrompt: string,
    question: string,
    answer: Option<string>)

  /** The text-generation service: `gen(k, prompt)` is the completion
      returned by the k-th call (counting from 0) for that prompt. A fixed
      list of canned completions and a function of the prompt alone are
      both special cases. */
  type Oracle = (nat, string) -> string

  /** The lower-case reply that marks "nothing of this type". */
  const NoDefectFound: string := "no defect found"

  /** `piece.strip().strip('"')`: surrounding whitespace removed, then
      every surrounding double quote. */
  function Clean(piece: string): string {
    Strip(Strip(piece, Whitespace), {'"'})
  }

  /** Cleaning only removes characters, and leaves no double quote at
      either end. */
  lemma CleanSpec(piece: string)
    ensures forall c :: c in Clean(piece) ==> c in piece
    ensures var segment := Clean(piece);
      segment == [] || (segment[0] != '"' && segment[|segment| - 1] != '"')
  {
    var trimmed := Strip(piece, Whitespace);
    StripKeepsChars(piece, Whitespace);
    StripKeepsChars(trimmed, {'"'});
    StripSpec(trimmed, {'"'});
  }

  /** A piece with nothing to clean off is its own segment. */
  lemma CleanUnchanged(piece: string)
    requires piece == [] || (piece[0] !in Whitespace + {'"'} && piece[|piece| - 1] !in Whitespace + {'"'})
    ensures Clean(piece) == piece
  {
    StripUnchanged(piece, Whitespace);
    StripUnchanged(piece, {'"'});
  }

  /** A quoted item, optionally after one space, loses the space and the
      quotes. */
  lemma CleanQuoted(item: string)
    requires item != [] && item[0] !in Whitespace + {'"'} && item[|item| - 1] !in Whitespace + {'"'}
    ensures Clean(['"'] + item + ['"']) == item
    ensures Clean([' '] + (['"'] + item + ['"'])) == item
  {
    var quoted := ['"'] + item + ['"'];
    StripUnchanged(quoted, Whitespace);
    StripLeading(' ', quoted, Whitespace);
    StripSurrounded('"', item, {'"'});
  }

  /** A cleaned piece that yields a row. */
  predicate Survives(segment: string) {
    Lower(segment) != NoDefectFound
  }

  /** Every piece cleaned, in order. */
  function Cleaned(pieces: seq<string>): seq<string> {
    seq(|pieces|, i requires 0 <= i < |pieces| => Clean(pieces[i]))
  }

  /** The segments that survive, in order. */
  function Kept(segments: seq<string>): seq<string>
    decreases |segments|
  {
    if segments == [] then []
    else
      var last := segments[|segments| - 1];
      Kept(segments[..|segments| - 1]) + (if Survives(last) then [last] else [])
  }

  /** The segments extracted from one detection completion. */
  function Segments(completion: string): seq<string> {
    Kept(Cleaned(Split(completion, ',')))
  }

  /** Exactly the surviving segments are kept. */
  lemma {:induction false} KeptMembers(segments: seq<string>, segment: string)
    ensures segment in Kept(segments) <==> segment in segments && Survives(segment)
    decreases |segments|
  {
    if segments != [] {
      var init := segments[..|segments| - 1];
      KeptMembers(init, segment);
      assert segments == init + [segments[|segments| - 1]];
    }
  }

  /** The segments of a completion are exactly its comma-separated pieces,
      cleaned, that are not "no defect found" in any case. */
  lemma SegmentsMembers(completion: string, segment: string)
    ensures segment in Segments(completion) <==>
      segment in Cleaned(Split(completion, ',')) && Survives(segment)
  {
    KeptMembers(Cleaned(Split(completion, ',')), segment);
  }

  /** Every segment holds no comma, neither starts nor ends with a double
      quote, and is not "no defect found" in any case. */
  lemma SegmentsShape(completion: string, segment: string)
    requires segment in Segments(completion)
    ensures ',' !in segment
    ensures segment == [] || (segment[0] != '"' && segment[|segment| - 1] != '"')
    ensures Lower(segment) != NoDefectFound
  {
    var pieces := Split(completion, ',');
    KeptMembers(Cleaned(pieces), segment);
    var i :| 0 <= i < |pieces| && Cleaned(pieces)[i] == segment;
    assert ',' !in pieces[i];
    CleanSpec(pieces[i]);
  }

  /** A comma-free reply with nothing to clean off is one segment, or none
      when it is "no defect found" in any case. */
  lemma SingleSegment(reply: string)
    requires ',' !in reply
    requires reply == [] || (reply[0] !in Whitespace + {'"'} && reply[|reply| - 1] !in Whitespace + {'"'})
    ensures Segments(reply) == if Survives(reply) then [reply] else []
  {
    SplitWithoutSep(reply, ',');
    CleanUnchanged(reply);
    assert Cleaned([reply]) == [reply];
    assert Kept([reply]) == Kept([]) + (if Survives(reply) then [reply] else []);
  }

  /** A reply of exactly "No Defect Found" yields no segment. */
  lemma SentinelYieldsNothing(reply: string)
    requires reply == AmbiguitySentinel
    ensures Segments(reply) == []
  {
    assert reply[0] == 'N' && reply[|reply| - 1] == 'd';
    assert Lower(reply) == NoDefectFound;
    SingleSegment(reply);
  }

  /** The incompleteness template's own sentinel is not recognised: it
      yields a segment of its own. */
  lemma IncompletenessSentinelYieldsSegment(reply: string)
    requires reply == IncompletenessSentinel
    ensures Segments(reply) == [reply]
  {
    IncompletenessSentinelCommaFree();
    assert reply[0] == 'M' && reply[|reply| - 1] == 'd';
    assert |Lower(reply)| != |NoDefectFound|;
    SingleSegment(reply);
  }

  /** The incompleteness sentinel holds no comma. */
  lemma IncompletenessSentinelCommaFree()
    ensures ',' !in IncompletenessSentinel
  {
  }

  /** A list item as the service is asked to quote it: not empty, no
      comma, nothing to clean off either end. */
  predicate Item(s: string) {
    s != [] && ',' !in s && s[0] !in Whitespace + {'"'} && s[|s| - 1] !in Whitespace + {'"'}
  }

  function Quote(s: string): string {
    ['"'] + s + ['"']
  }

  /** When every segment survives, all are kept, in order. */
  lemma {:induction false} KeptAll(segments: seq<string>)
    requires forall i :: 0 <= i < |segments| ==> Survives(segments[i])
    ensures Kept(segments) == segments
    decreases |segments|
  {
    if segments != [] {
      KeptAll(segments[..|segments| - 1]);
    }
  }

  /** The filter works piece by piece: filtering two lists joined is
      filtering each and joining, so every surviving piece is kept once,
      in its place, duplicates included. */
  lemma {:induction false} KeptAppend(a: seq<string>, b: seq<string>)
    ensures Kept(a + b) == Kept(a) + Kept(b)
    decreases |b|
  {
    if b != [] {
      var init := b[..|b| - 1];
      KeptAppend(a, init);
      assert (a + b)[..|a + b| - 1] == a + init;
    } else {
      assert a + b == a;
    }
  }

  /** One piece is kept exactly when it survives. */
  lemma KeptOne(segment: string)
    ensures Kept([segment]) == if Survives(segment) then [segment] else []
  {
    assert [segment][..0] == [];
  }

  /** The segments of a reply are those of its first comma-separated piece
      followed by those of the rest, in order. */
  lemma SegmentsAtComma(first: string, rest: string)
    requires ',' !in first
    ensures Segments(first + [','] + rest)
      == (if Survives(Clean(first)) then [Clean(first)] else []) + Segments(rest)
  {
    var pieces := Split(rest, ',');
    SplitAtSep(first, ',', rest);
    assert Cleaned([first] + pieces) == [Clean(first)] + Cleaned(pieces);
    KeptAppend([Clean(first)], Cleaned(pieces));
    KeptOne(Clean(first));
  }

  /** A piece that cleans to something dropped, between two quoted items,
      drops out and leaves both items, in order, even when they are
      equal. */
  lemma DroppedBetween(a: string, dropped: string, b: string)
    requires Item(a) && Item(b) && Survives(a) && Survives(b)
    requires ',' !in dropped && !Survives(Clean(dropped))
    ensures Segments(Quote(a) + [','] + (dropped + [','] + Quote(b))) == [a, b]
  {
    var rest := dropped + [','] + Quote(b);
    QuotedAlone(b);
    SegmentsAtComma(dropped, Quote(b));
    assert Segments(rest) == [b];
    CleanQuoted(a);
    assert ',' !in Quote(a);
    SegmentsAtComma(Quote(a), rest);
  }

  /** A quoted item on its own is one segment. */
  lemma QuotedAlone(b: string)
    requires Item(b) && Survives(b)
    ensures Segments(Quote(b)) == [b]
  {
    CleanQuoted(b);
    assert ',' !in Quote(b);
    SplitWithoutSep(Quote(b), ',');
    assert Cleaned([Quote(b)]) == [b];
    KeptOne(b);
  }

  /** So `"a",no defect found,"b"` yields `a` then `b`: for `"a",no defect
      found,"a"` that is two rows `a`. */
  lemma SentinelBetween(a: string, b: string)
    requires Item(a) && Item(b) && Survives(a) && Survives(b)
    ensures Segments(Quote(a) + [','] + (NoDefectFound + [','] + Quote(b))) == [a, b]
  {
    SentinelPiece();
    DroppedBetween(a, NoDefectFound, b);
  }

  /** The lower-case sentinel as a piece of its own: no comma, nothing to
      clean, and it does not survive. */
  lemma SentinelPiece()
    ensures ',' !in NoDefectFound
    ensures Clean(NoDefectFound) == NoDefectFound
    ensures !Survives(NoDefectFound)
  {
    CleanUnchanged(NoDefectFound);
    LowerUnchanged(NoDefectFound);
  }

  /** A quoted pair `"a", "b"` yields both items without quotes or
      padding. */
  lemma QuotedPair(a: string, b: string)
    requires Item(a) && Item(b) && Survives(a) && Survives(b)
    ensures Segments(Quote(a) + [','] + ([' '] + Quote(b))) == [a, b]
  {
    var second := [' '] + Quote(b);
    SplitAtSep(Quote(a), ',', second);
    SplitWithoutSep(second, ',');
    var pieces := Split(Quote(a) + [','] + second, ',');
    assert pieces == [Quote(a), second];
    CleanQuoted(a);
    CleanQuoted(b);
    assert Cleaned(pieces) == [a, b];
    KeptAll([a, b]);
  }

  /** A trailing comma yields an empty segment, which is kept. */
  lemma TrailingComma(a: string)
    requires Item(a) && Survives(a)
    ensures Segments(Quote(a) + [',']) == [a, ""]
  {
    assert Quote(a) + [','] == Quote(a) + [','] + [];
    SplitAtSep(Quote(a), ',', []);
    assert Split([], ',') == [[]];
    var pieces := Split(Quote(a) + [','], ',');
    assert pieces == [Quote(a), []];
    CleanQuoted(a);
    CleanUnchanged([]);
    assert Cleaned(pieces) == [a, []];
    assert Survives([]);
    KeptAll([a, []]);
  }

  /** The log of one run: the rows appended and every prompt sent to the
      service, in order. */
  datatype Trace = Trace(rows: seq<Finding>, prompts: seq<string>)

  /** The question prompts for a list of segments, in order. */
  function QuestionPrompts(segments: seq<string>, defectType: string, request: string): seq<string> {
    seq(|segments|, j requires 0 <= j < |segments| => QuestionPrompt(segments[j], defectType, request))
  }

  /** The rows for a list of segments, the j-th answered by call k + j. */
  function QuestionRows(segments: seq<string>, defectType: string, request: string, title: Option<string>,
                        detectPrompt: string, gen: Oracle, k: nat): seq<Finding>
  {
    seq(|segments|, j requires 0 <= j < |segments| =>
      var prompt := QuestionPrompt(segments[j], defectType, request);
      Finding(request, title, detectPrompt, segments[j], defectType, prompt, gen(k + j, prompt), None))
  }

  /** The detection prompt of a catalog identifier, which is never
      refused. */
  function CatalogPrompt(defectType: string, request: string, title: Option<string>): (p: string)
    requires defectType in DefectTypes
    ensures DetectionPrompt(defectType, request, title) == Ok(p)
  {
    CatalogShape();
    DetectionPrompt(defectType, request, title).value
  }

  /** The detection prompts of a run, one per defect type in catalog
      order. */
  function DetectPrompts(request: string, title: Option<string>): seq<string> {
    seq(|DefectTypes|, i requires 0 <= i < |DefectTypes| => CatalogPrompt(DefectTypes[i], request, title))
  }

  /** The i-th detection prompt of a run is the one `detection_prompt`
      builds for the i-th catalog identifier. */
  lemma DetectPromptsSpec(request: string, title: Option<string>)
    ensures |DetectPrompts(request, title)| == |DefectTypes|
    ensures forall i :: 0 <= i < |DefectTypes| ==>
      DetectionPrompt(DefectTypes[i], request, title) == Ok(DetectPrompts(request, title)[i])
  {
  }

  /** A way of cutting a detection reply into segments; a run uses
      `Segments`. */
  type Cutter = string -> seq<string>

  /** What one defect type contributes when its detection prompt is sent
      as call k: that prompt, then one question prompt and one row per
      segment the reply is cut into. */
  function Stage(defectType: string, detectPrompt: string, cut: Cutter, request: string, title: Option<string>,
                 gen: Oracle, k: nat): Trace
  {
    var segments := cut(gen(k, detectPrompt));
    Trace(QuestionRows(segments, defectType, request, title, detectPrompt, gen, k + 1),
          [detectPrompt] + QuestionPrompts(segments, defectType, request))
  }

  /** The trace after the first n defect types of `types`, given the
      detection prompt of each and the way replies are cut. */
  function RunUpTo(n: nat, types: seq<string>, detectPrompts: seq<string>, cut: Cutter, request: string, title: Option<string>, gen: Oracle): Trace
    requires n <= |types| == |detectPrompts|
  {
    if n == 0 then Trace([], [])
    else
      var before := RunUpTo(n - 1, types, detectPrompts, cut, request, title, gen);
      var stage := Stage(types[n - 1], detectPrompts[n - 1], cut, request, title, gen, |before.prompts|);
      Trace(before.rows + stage.rows, before.prompts + stage.prompts)
  }

  /** The trace of a whole run. */
  function Run(request: string, title: Option<string>, gen: Oracle): Trace {
    RunUpTo(|DefectTypes|, DefectTypes, DetectPrompts(request, title), Segments, request, title, gen)
  }

  lemma QuestionRowsSnoc(segments: seq<string>, segment: string, defectType: string, request: string,
                         title: Option<string>, detectPrompt: string, gen: Oracle, k: nat)
    ensures var prompt := QuestionPrompt(segment, defectType, request);
      QuestionRows(segments + [segment], defectType, request, title, detectPrompt, gen, k)
      == QuestionRows(segments, defectType, request, title, detectPrompt, gen, k)
         + [Finding(request, title, detectPrompt, segment, defectType, prompt, gen(k + |segments|, prompt), None)]
    ensures QuestionPrompts(segments + [segment], defectType, request)
      == QuestionPrompts(segments, defectType, request) + [QuestionPrompt(segment, defectType, request)]
  {
  }

  /** No identifier is listed twice. */
  ghost predicate Distinct(types: seq<string>) {
    forall i, j :: 0 <= i < j < |types| ==> types[i] != types[j]
  }

  /** The position of a defect type in the list. */
  ghost function Rank(types: seq<string>, defectType: string): (i: nat)
    requires defectType in types
    ensures i < |types| && types[i] == defectType
  {
    var i :| 0 <= i < |types| && types[i] == defectType; i
  }

  /** A segment that survives, holds no comma and has no double quote at
      either end. */
  predicate CleanSegment(segment: string) {
    && Survives(segment)
    && ',' !in segment
    && (segment == [] || (segment[0] != '"' && segment[|segment| - 1] != '"'))
  }

  /** A way of cutting replies whose every segment is clean. */
  ghost predicate CleanCut(cut: Cutter) {
    forall completion, segment :: segment in cut(completion) ==> CleanSegment(segment)
  }

  /** `Segments` is such a way. */
  lemma SegmentsClean()
    ensures CleanCut(Segments)
  {
    forall completion, segment | segment in Segments(completion)
      ensures CleanSegment(segment)
    {
      SegmentsShape(completion, segment);
    }
  }

  /** A row made for one defect type and its detection prompt: it carries
      the request and title, its question prompt, no answer yet, and a
      clean segment. */
  ghost predicate RowOf(row: Finding, defectType: string, detectPrompt: string, request: string, title: Option<string>) {
    && row.originalRequest == request
    && row.originalTitle == title
    && row.defectType == defectType
    && row.detectPrompt == detectPrompt
    && row.questionPrompt == QuestionPrompt(row.segment, defectType, request)
    && row.answer == None
    && CleanSegment(row.segment)
  }

  /** A row of a run: made for a listed defect type and that type's
      detection prompt. */
  ghost predicate WellFormed(row: Finding, types: seq<string>, detectPrompts: seq<string>, request: string, title: Option<string>) {
    && row.defectType in types
    && Rank(types, row.defectType) < |detectPrompts|
    && RowOf(row, row.defectType, detectPrompts[Rank(types, row.defectType)], request, title)
  }

  /** Each row of a run carries the detection prompt listed for its
      defect type. */
  lemma WellFormedPrompts(rows: seq<Finding>, types: seq<string>, detectPrompts: seq<string>, request: string, title: Option<string>)
    requires AllWellFormed(rows, types, detectPrompts, request, title)
    ensures forall i :: 0 <= i < |rows| ==>
      && rows[i].defectType in types
      && Rank(types, rows[i].defectType) < |detectPrompts|
      && rows[i].detectPrompt == detectPrompts[Rank(types, rows[i].defectType)]
  {
    forall i | 0 <= i < |rows|
      ensures rows[i].detectPrompt == detectPrompts[Rank(types, rows[i].defectType)]
    {
      assert WellFormed(rows[i], types, detectPrompts, request, title);
    }
  }

  /** A stage makes one detection call and then one question call per
      row, in row order: row i's question is the reply to call k + 1 + i,
      which sent that row's question prompt. */
  lemma StageCalls(defectType: string, detectPrompt: string, cut: Cutter, request: string, title: Option<string>, gen: Oracle, k: nat)
    ensures var stage := Stage(defectType, detectPrompt, cut, request, title, gen, k);
      && |stage.prompts| == 1 + |stage.rows|
      && stage.prompts[0] == detectPrompt
      && forall i :: 0 <= i < |stage.rows| ==>
           && stage.prompts[i + 1] == stage.rows[i].questionPrompt
           && stage.rows[i].question == gen(k + 1 + i, stage.rows[i].questionPrompt)
  {
  }

  /** Each row of a stage holds one segment of the detection reply, in
      the order of the segments. */
  lemma StageSegments(defectType: string, detectPrompt: string, cut: Cutter, request: string, title: Option<string>, gen: Oracle, k: nat)
    ensures var stage := Stage(defectType, detectPrompt, cut, request, title, gen, k);
      && |stage.rows| == |cut(gen(k, detectPrompt))|
      && forall i :: 0 <= i < |stage.rows| ==> stage.rows[i].segment == cut(gen(k, detectPrompt))[i]
  {
  }

  /** Every row of a stage is made for the stage's defect type and
      detection prompt. */
  ghost predicate RowsOf(rows: seq<Finding>, defectType: string, detectPrompt: string, request: string, title: Option<string>) {
    forall i :: 0 <= i < |rows| ==> RowOf(rows[i], defectType, detectPrompt, request, title)
  }

  /** Every row has the given defect type. */
  ghost predicate OfType(rows: seq<Finding>, defectType: string) {
    forall i :: 0 <= i < |rows| ==> rows[i].defectType == defectType
  }

  lemma StageType(defectType: string, detectPrompt: string, cut: Cutter, request: string, title: Option<string>, gen: Oracle, k: nat)
    ensures OfType(Stage(defectType, detectPrompt, cut, request, title, gen, k).rows, defectType)
  {
  }

  lemma StageRows(defectType: string, detectPrompt: string, cut: Cutter, request: string, title: Option<string>, gen: Oracle, k: nat)
    requires CleanCut(cut)
    ensures RowsOf(Stage(defectType, detectPrompt, cut, request, title, gen, k).rows, defectType, detectPrompt, request, title)
  {
    var completion := gen(k, detectPrompt);
    var segments := cut(completion);
    var stage := Stage(defectType, detectPrompt, cut, request, title, gen, k);
    forall i | 0 <= i < |stage.rows|
      ensures RowOf(stage.rows[i], defectType, detectPrompt, request, title)
    {
      assert stage.rows[i].segment == segments[i];
    }
  }

  /** A detection reply without segments adds no row and no question
      call. */
  lemma EmptyStage(defectType: string, detectPrompt: string, cut: Cutter, request: string, title: Option<string>, gen: Oracle, k: nat)
    requires cut(gen(k, detectPrompt)) == []
    ensures Stage(defectType, detectPrompt, cut, request, title, gen, k) == Trace([], [detectPrompt])
  {
    assert QuestionRows([], defectType, request, title, detectPrompt, gen, k + 1) == [];
    assert QuestionPrompts([], defectType, request) == [];
  }

  /** In particular a detection reply of "No Defect Found" adds no row and
      no question call. */
  lemma NoDefectStage(defectType: string, detectPrompt: string, request: string, title: Option<string>, gen: Oracle, k: nat)
    requires gen(k, detectPrompt) == AmbiguitySentinel
    ensures Stage(defectType, detectPrompt, Segments, request, title, gen, k) == Trace([], [detectPrompt])
  {
    SentinelYieldsNothing(gen(k, detectPrompt));
    EmptyStage(defectType, detectPrompt, Segments, request, title, gen, k);
  }

  /** Every row is a row of the run. */
  ghost predicate AllWellFormed(rows: seq<Finding>, types: seq<string>, detectPrompts: seq<string>, request: string, title: Option<string>) {
    forall i :: 0 <= i < |rows| ==> WellFormed(rows[i], types, detectPrompts, request, title)
  }

  /** Every row has a listed defect type of rank below n. */
  ghost predicate RanksBelow(rows: seq<Finding>, types: seq<string>, n: nat) {
    forall i :: 0 <= i < |rows| ==> rows[i].defectType in types && Rank(types, rows[i].defectType) < n
  }

  /** Row a's defect type is listed no later than row b's. */
  ghost predicate NoLater(a: Finding, b: Finding, types: seq<string>) {
    && a.defectType in types && b.defectType in types
    && Rank(types, a.defectType) <= Rank(types, b.defectType)
  }

  /** The rows are grouped by defect type, in the order of the list. */
  ghost predicate Grouped(rows: seq<Finding>, types: seq<string>) {
    forall i, j :: 0 <= i < j < |rows| ==> NoLater(rows[i], rows[j], types)
  }

  /** Each row's defect type is listed no earlier than the one before. */
  ghost predicate Ascending(rows: seq<Finding>, types: seq<string>) {
    forall i :: 0 < i < |rows| ==> NoLater(rows[i - 1], rows[i], types)
  }

  /** Ranks that never go down from one row to the next never go down
      at all. */
  lemma {:induction false} AscendingGrouped(rows: seq<Finding>, types: seq<string>)
    requires Ascending(rows, types)
    ensures Grouped(rows, types)
    decreases |rows|
  {
    if |rows| > 1 {
      var front := rows[..|rows| - 1];
      assert Ascending(front, types) by {
        forall i | 0 < i < |front| ensures NoLater(front[i - 1], front[i], types) {
          assert front[i - 1] == rows[i - 1] && front[i] == rows[i];
        }
      }
      AscendingGrouped(front, types);
      var last := |rows| - 1;
      forall i, j | 0 <= i < j < |rows| ensures NoLater(rows[i], rows[j], types) {
        if j < last {
          assert NoLater(front[i], front[j], types);
        } else if i < last - 1 {
          assert NoLater(front[i], front[last - 1], types);
          assert NoLater(rows[last - 1], rows[last], types);
        }
      }
    }
  }

  /** Row i of a trace holds the reply to call c, which sent the row's
      question prompt. */
  ghost predicate Answers(run: Trace, i: nat, c: nat, gen: Oracle) {
    && i < |run.rows|
    && c < |run.prompts|
    && run.prompts[c] == run.rows[i].questionPrompt
    && run.rows[i].question == gen(c, run.prompts[c])
  }

  /** The call that answers row i of a run: the detection calls of the
      row's own defect type and of every earlier one, one for each, plus
      one question call for each earlier row. */
  ghost function CallOf(rows: seq<Finding>, types: seq<string>, i: nat): nat
    requires i < |rows| && rows[i].defectType in types
  {
    i + 1 + Rank(types, rows[i].defectType)
  }

  /** Every row has a listed defect type and holds the reply to its own
      call, the one `CallOf` names, which sent the row's question prompt. */
  ghost predicate AnsweredInOrder(run: Trace, types: seq<string>, gen: Oracle) {
    forall i :: 0 <= i < |run.rows| ==>
      && run.rows[i].defectType in types
      && Answers(run, i, CallOf(run.rows, types, i), gen)
  }

  /** Appending the rows made for the (n-1)-th listed defect type to rows
      of the run keeps every row a row of the run. */
  lemma AppendStageWellFormed(before: seq<Finding>, stage: seq<Finding>, n: nat, types: seq<string>,
                              detectPrompts: seq<string>, request: string, title: Option<string>)
    requires 0 < n <= |types| == |detectPrompts| && Distinct(types)
    requires AllWellFormed(before, types, detectPrompts, request, title)
    requires RowsOf(stage, types[n - 1], detectPrompts[n - 1], request, title)
    ensures AllWellFormed(before + stage, types, detectPrompts, request, title)
  {
    var rows := before + stage;
    forall i | |before| <= i < |rows|
      ensures WellFormed(rows[i], types, detectPrompts, request, title)
    {
      var row := stage[i - |before|];
      assert rows[i] == row && row.defectType == types[n - 1];
      var r := Rank(types, row.defectType);
      assert types[r] == types[n - 1];
    }
  }

  /** Appending them to rows of ranks below n - 1 gives rows of ranks below
      n. */
  lemma AppendStageRanks(before: seq<Finding>, stage: seq<Finding>, n: nat, types: seq<string>,
                         detectPrompts: seq<string>, request: string, title: Option<string>)
    requires 0 < n <= |types| == |detectPrompts| && Distinct(types)
    requires RanksBelow(before, types, n - 1)
    requires OfType(stage, types[n - 1])
    ensures RanksBelow(before + stage, types, n)
  {
    var rows := before + stage;
    forall i | |before| <= i < |rows|
      ensures rows[i].defectType in types && Rank(types, rows[i].defectType) < n
    {
      var row := stage[i - |before|];
      assert rows[i] == row && row.defectType == types[n - 1];
      var r := Rank(types, row.defectType);
      assert types[r] == types[n - 1];
    }
  }

  /** Appending them to ascending rows of ranks below n - 1 keeps the
      rows ascending. */
  lemma AppendStageAscending(before: seq<Finding>, stage: seq<Finding>, n: nat, types: seq<string>,
                             detectPrompts: seq<string>, request: string, title: Option<string>)
    requires 0 < n <= |types| == |detectPrompts| && Distinct(types)
    requires RanksBelow(before, types, n - 1) && Ascending(before, types)
    requires OfType(stage, types[n - 1])
    ensures Ascending(before + stage, types)
  {
    var rows := before + stage;
    forall i | |before| <= i < |rows|
      ensures rows[i] == stage[i - |before|] && rows[i].defectType == types[n - 1]
      ensures Rank(types, rows[i].defectType) == n - 1
    {
      var r := Rank(types, stage[i - |before|].defectType);
      assert types[r] == types[n - 1];
    }
  }

  /** Appending the stage of the (n-1)-th listed defect type, whose
      question calls follow the calls already made, keeps every row
      answered by its own call. */
  lemma AppendStageAnswered(before: Trace, stage: Trace, after: Trace, n: nat, types: seq<string>, gen: Oracle)
    requires after == Trace(before.rows + stage.rows, before.prompts + stage.prompts)
    requires 0 < n <= |types| && Distinct(types)
    requires AnsweredInOrder(before, types, gen)
    requires |before.prompts| == n - 1 + |before.rows|
    requires OfType(stage.rows, types[n - 1])
    requires |stage.prompts| == 1 + |stage.rows|
    requires forall i :: 0 <= i < |stage.rows| ==>
      && stage.prompts[i + 1] == stage.rows[i].questionPrompt
      && stage.rows[i].question == gen(|before.prompts| + 1 + i, stage.rows[i].questionPrompt)
    ensures AnsweredInOrder(after, types, gen)
  {
    var run := after;
    forall i | 0 <= i < |run.rows|
      ensures run.rows[i].defectType in types && Answers(run, i, CallOf(run.rows, types, i), gen)
    {
      if i < |before.rows| {
        assert run.rows[i] == before.rows[i];
        var c := CallOf(before.rows, types, i);
        assert Answers(before, i, c, gen);
        assert run.prompts[c] == before.prompts[c];
      } else {
        var j := i - |before.rows|;
        assert run.rows[i] == stage.rows[j] && stage.rows[j].defectType == types[n - 1];
        var r := Rank(types, types[n - 1]);
        assert types[r] == types[n - 1];
        assert CallOf(run.rows, types, i) == |before.prompts| + 1 + j;
      }
    }
  }

  /** After the first n defect types: one detection call per defect type
      plus one question call per row. */
  lemma {:induction false} RunUpToCount(n: nat, types: seq<string>, detectPrompts: seq<string>, cut: Cutter, request: string, title: Option<string>, gen: Oracle)
    requires n <= |types| == |detectPrompts|
    ensures |RunUpTo(n, types, detectPrompts, cut, request, title, gen).prompts| == n + |RunUpTo(n, types, detectPrompts, cut, request, title, gen).rows|
  {
    if n > 0 {
      var before := RunUpTo(n - 1, types, detectPrompts, cut, request, title, gen);
      RunUpToCount(n - 1, types, detectPrompts, cut, request, title, gen);
      StageCalls(types[n - 1], detectPrompts[n - 1], cut, request, title, gen, |before.prompts|);
    }
  }

  /** One more defect type keeps every row answered by its own call. */
  lemma CallsStep(n: nat, types: seq<string>, detectPrompts: seq<string>, cut: Cutter, request: string, title: Option<string>, gen: Oracle)
    requires 0 < n <= |types| == |detectPrompts| && Distinct(types)
    requires AnsweredInOrder(RunUpTo(n - 1, types, detectPrompts, cut, request, title, gen), types, gen)
    requires |RunUpTo(n - 1, types, detectPrompts, cut, request, title, gen).prompts|
      == n - 1 + |RunUpTo(n - 1, types, detectPrompts, cut, request, title, gen).rows|
    ensures AnsweredInOrder(RunUpTo(n, types, detectPrompts, cut, request, title, gen), types, gen)
  {
    var before := RunUpTo(n - 1, types, detectPrompts, cut, request, title, gen);
    var stage := Stage(types[n - 1], detectPrompts[n - 1], cut, request, title, gen, |before.prompts|);
    StageCalls(types[n - 1], detectPrompts[n - 1], cut, request, title, gen, |before.prompts|);
    StageType(types[n - 1], detectPrompts[n - 1], cut, request, title, gen, |before.prompts|);
    AppendStageAnswered(before, stage, RunUpTo(n, types, detectPrompts, cut, request, title, gen), n, types, gen);
  }

  /** After the first n defect types every row's question is the reply to
      its own call, which sent its question prompt. */
  lemma {:induction false} RunUpToCalls(n: nat, types: seq<string>, detectPrompts: seq<string>, cut: Cutter, request: string, title: Option<string>, gen: Oracle)
    requires n <= |types| == |detectPrompts| && Distinct(types)
    ensures AnsweredInOrder(RunUpTo(n, types, detectPrompts, cut, request, title, gen), types, gen)
  {
    if n > 0 {
      RunUpToCalls(n - 1, types, detectPrompts, cut, request, title, gen);
      RunUpToCount(n - 1, types, detectPrompts, cut, request, title, gen);
      CallsStep(n, types, detectPrompts, cut, request, title, gen);
    }
  }

  /** Once the r-th defect type has had its turn, its detection prompt
      stays at call k, the number of calls made before its stage. */
  lemma {:induction false} RunUpToDetectCall(n: nat, r: nat, types: seq<string>, detectPrompts: seq<string>, cut: Cutter, request: string, title: Option<string>, gen: Oracle)
    requires r < n <= |types| == |detectPrompts|
    ensures var k := |RunUpTo(r, types, detectPrompts, cut, request, title, gen).prompts|;
      var run := RunUpTo(n, types, detectPrompts, cut, request, title, gen);
      k < |run.prompts| && run.prompts[k] == detectPrompts[r]
  {
    var before := RunUpTo(n - 1, types, detectPrompts, cut, request, title, gen);
    StageCalls(types[n - 1], detectPrompts[n - 1], cut, request, title, gen, |before.prompts|);
    if r < n - 1 {
      RunUpToDetectCall(n - 1, r, types, detectPrompts, cut, request, title, gen);
    }
  }

  /** `stage` sits in `run` from position p on, and no other row of `run`
      has the given defect type. */
  ghost predicate PlacedAt(run: seq<Finding>, stage: seq<Finding>, p: nat, defectType: string) {
    && p + |stage| <= |run|
    && (forall i :: 0 <= i < |stage| ==> run[p + i] == stage[i])
    && (forall i :: 0 <= i < |run| && run[i].defectType == defectType ==> p <= i < p + |stage|)
  }

  /** Rows of ranks below r followed by the rows of the r-th defect type:
      those rows sit right after the first part, and nowhere else. */
  lemma PlacedAfterRanks(before: seq<Finding>, stage: seq<Finding>, r: nat, types: seq<string>)
    requires r < |types| && Distinct(types)
    requires RanksBelow(before, types, r)
    requires OfType(stage, types[r])
    ensures PlacedAt(before + stage, stage, |before|, types[r])
  {
    var run := before + stage;
    var rank := Rank(types, types[r]);
    assert types[rank] == types[r];
    assert forall i :: 0 <= i < |before| ==> run[i] == before[i];
  }

  /** Appending rows of another defect type keeps placed rows in place. */
  lemma PlacedAppend(run: seq<Finding>, stage: seq<Finding>, p: nat, rows: seq<Finding>, rowType: string, defectType: string)
    requires PlacedAt(run, stage, p, defectType)
    requires OfType(rows, rowType) && rowType != defectType
    ensures PlacedAt(run + rows, stage, p, defectType)
  {
    var after := run + rows;
    forall i | 0 <= i < |stage|
      ensures after[p + i] == stage[i]
    {
      assert after[p + i] == run[p + i];
    }
    assert forall i :: 0 <= i < |run| ==> after[i] == run[i];
    assert forall i :: |run| <= i < |after| ==> after[i] == rows[i - |run|];
  }

  /** Once the r-th defect type has had its turn, its rows are those of its
      stage, whose detection prompt went out as call k, the number of calls
      made before it; they sit at p, the number of rows before it, and no
      other row has that type. */
  lemma {:induction false} RunUpToPlaced(n: nat, r: nat, types: seq<string>, detectPrompts: seq<string>, cut: Cutter, request: string, title: Option<string>, gen: Oracle)
    requires r < n <= |types| == |detectPrompts| && Distinct(types)
    ensures var before := RunUpTo(r, types, detectPrompts, cut, request, title, gen);
      PlacedAt(RunUpTo(n, types, detectPrompts, cut, request, title, gen).rows,
               Stage(types[r], detectPrompts[r], cut, request, title, gen, |before.prompts|).rows, |before.rows|, types[r])
  {
    var before := RunUpTo(n - 1, types, detectPrompts, cut, request, title, gen);
    var stage := Stage(types[n - 1], detectPrompts[n - 1], cut, request, title, gen, |before.prompts|);
    StageType(types[n - 1], detectPrompts[n - 1], cut, request, title, gen, |before.prompts|);
    if n - 1 == r {
      RunUpToRanks(r, types, detectPrompts, cut, request, title, gen);
      PlacedAfterRanks(before.rows, stage.rows, r, types);
    } else {
      var earlier := RunUpTo(r, types, detectPrompts, cut, request, title, gen);
      RunUpToPlaced(n - 1, r, types, detectPrompts, cut, request, title, gen);
      assert types[n - 1] != types[r];
      PlacedAppend(before.rows, Stage(types[r], detectPrompts[r], cut, request, title, gen, |earlier.prompts|).rows,
                   |earlier.rows|, stage.rows, types[n - 1], types[r]);
    }
  }

  /** Call k of the run sent `detectPrompt`; the rows from position p on
      are, in order, one per segment in `segments`, all of `defectType`,
      and no other row has that type. */
  ghost predicate SegmentsPlaced(run: Trace, k: nat, p: nat, detectPrompt: string, defectType: string, segments: seq<string>) {
    && k < |run.prompts| && run.prompts[k] == detectPrompt
    && p + |segments| <= |run.rows|
    && (forall i :: p <= i < p + |segments| ==>
          run.rows[i].defectType == defectType && run.rows[i].segment == segments[i - p])
    && (forall i :: 0 <= i < |run.rows| && run.rows[i].defectType == defectType ==> p <= i < p + |segments|)
  }

  lemma PlacedSegments(run: Trace, stage: seq<Finding>, k: nat, p: nat, detectPrompt: string, defectType: string, segments: seq<string>)
    requires k < |run.prompts| && run.prompts[k] == detectPrompt
    requires PlacedAt(run.rows, stage, p, defectType) && OfType(stage, defectType)
    requires |stage| == |segments|
    requires forall i :: 0 <= i < |stage| ==> stage[i].segment == segments[i]
    ensures SegmentsPlaced(run, k, p, detectPrompt, defectType, segments)
  {
    forall i | p <= i < p + |segments|
      ensures run.rows[i] == stage[i - p]
    {
    }
    forall i | 0 <= i < |run.rows| && run.rows[i].defectType == defectType
      ensures p <= i < p + |segments|
    {
    }
    assert k < |run.prompts| && run.prompts[k] == detectPrompt;
  }

  /** Once the r-th defect type has had its turn, its rows are, in order,
      one per segment of the reply to its detection call. */
  lemma RunUpToSegments(n: nat, r: nat, types: seq<string>, detectPrompts: seq<string>, request: string, title: Option<string>, gen: Oracle)
    requires r < n <= |types| == |detectPrompts| && Distinct(types)
    ensures var before := RunUpTo(r, types, detectPrompts, Segments, request, title, gen);
      SegmentsPlaced(RunUpTo(n, types, detectPrompts, Segments, request, title, gen), |before.prompts|, |before.rows|, detectPrompts[r], types[r],
                     Segments(gen(|before.prompts|, detectPrompts[r])))
  {
    var before := RunUpTo(r, types, detectPrompts, Segments, request, title, gen);
    var k := |before.prompts|;
    RunUpToDetectCall(n, r, types, detectPrompts, Segments, request, title, gen);
    RunUpToPlaced(n, r, types, detectPrompts, Segments, request, title, gen);
    StageSegments(types[r], detectPrompts[r], Segments, request, title, gen, k);
    StageType(types[r], detectPrompts[r], Segments, request, title, gen, k);
    PlacedSegments(RunUpTo(n, types, detectPrompts, Segments, request, title, gen),
                   Stage(types[r], detectPrompts[r], Segments, request, title, gen, k).rows, k, |before.rows|, detectPrompts[r], types[r],
                   Segments(gen(k, detectPrompts[r])));
  }

  /** After the first n defect types every row is a row of the run. */
  lemma {:induction false} RunUpToRows(n: nat, types: seq<string>, detectPrompts: seq<string>, cut: Cutter, request: string, title: Option<string>, gen: Oracle)
    requires n <= |types| == |detectPrompts| && Distinct(types) && CleanCut(cut)
    ensures AllWellFormed(RunUpTo(n, types, detectPrompts, cut, request, title, gen).rows, types, detectPrompts, request, title)
  {
    if n > 0 {
      var before := RunUpTo(n - 1, types, detectPrompts, cut, request, title, gen);
      RunUpToRows(n - 1, types, detectPrompts, cut, request, title, gen);
      var stage := Stage(types[n - 1], detectPrompts[n - 1], cut, request, title, gen, |before.prompts|);
      StageRows(types[n - 1], detectPrompts[n - 1], cut, request, title, gen, |before.prompts|);
      AppendStageWellFormed(before.rows, stage.rows, n, types, detectPrompts, request, title);
    }
  }

  /** After the first n defect types every row has one of them as its
      defect type. */
  lemma {:induction false} RunUpToRanks(n: nat, types: seq<string>, detectPrompts: seq<string>, cut: Cutter, request: string, title: Option<string>, gen: Oracle)
    requires n <= |types| == |detectPrompts| && Distinct(types)
    ensures RanksBelow(RunUpTo(n, types, detectPrompts, cut, request, title, gen).rows, types, n)
  {
    if n > 0 {
      var before := RunUpTo(n - 1, types, detectPrompts, cut, request, title, gen);
      RunUpToRanks(n - 1, types, detectPrompts, cut, request, title, gen);
      var stage := Stage(types[n - 1], detectPrompts[n - 1], cut, request, title, gen, |before.prompts|);
      StageType(types[n - 1], detectPrompts[n - 1], cut, request, title, gen, |before.prompts|);
      AppendStageRanks(before.rows, stage.rows, n, types, detectPrompts, request, title);
    }
  }

  /** One more defect type keeps the rows' defect types from going back
      in the list. */
  lemma AscendingStep(n: nat, types: seq<string>, detectPrompts: seq<string>, cut: Cutter, request: string, title: Option<string>, gen: Oracle)
    requires 0 < n <= |types| == |detectPrompts| && Distinct(types)
    requires RanksBelow(RunUpTo(n - 1, types, detectPrompts, cut, request, title, gen).rows, types, n - 1)
    requires Ascending(RunUpTo(n - 1, types, detectPrompts, cut, request, title, gen).rows, types)
    ensures Ascending(RunUpTo(n, types, detectPrompts, cut, request, title, gen).rows, types)
  {
    var before := RunUpTo(n - 1, types, detectPrompts, cut, request, title, gen);
    var stage := Stage(types[n - 1], detectPrompts[n - 1], cut, request, title, gen, |before.prompts|);
    StageType(types[n - 1], detectPrompts[n - 1], cut, request, title, gen, |before.prompts|);
    AppendStageAscending(before.rows, stage.rows, n, types, detectPrompts, request, title);
  }

  /** After the first n defect types the rows' defect types never go back
      in the list. */
  lemma {:induction false} RunUpToAscending(n: nat, types: seq<string>, detectPrompts: seq<string>, cut: Cutter, request: string, title: Option<string>, gen: Oracle)
    requires n <= |types| == |detectPrompts| && Distinct(types)
    ensures Ascending(RunUpTo(n, types, detectPrompts, cut, request, title, gen).rows, types)
  {
    if n > 0 {
      RunUpToRanks(n - 1, types, detectPrompts, cut, request, title, gen);
      RunUpToAscending(n - 1, types, detectPrompts, cut, request, title, gen);
      AscendingStep(n, types, detectPrompts, cut, request, title, gen);
    }
  }

  /** The catalog lists no identifier twice. */
  lemma CatalogDistinct()
    ensures Distinct(DefectTypes)
  {
    CatalogShape();
  }

  /** A whole run makes six detection calls plus one question call per
      row. */
  lemma RunCount(request: string, title: Option<string>, gen: Oracle)
    ensures |Run(request, title, gen).prompts| == |DefectTypes| + |Run(request, title, gen).rows|
  {
    DetectPromptsSpec(request, title);
    RunUpToCount(|DefectTypes|, DefectTypes, DetectPrompts(request, title), Segments, request, title, gen);
  }

  /** In a whole run every row's question is the reply to its own call:
      row i of defect type number r (from 0) is answered by call
      i + 1 + r, which sent the row's question prompt. */
  lemma RunAnswered(request: string, title: Option<string>, gen: Oracle)
    ensures AnsweredInOrder(Run(request, title, gen), DefectTypes, gen)
  {
    DetectPromptsSpec(request, title);
    CatalogDistinct();
    RunUpToCalls(|DefectTypes|, DefectTypes, DetectPrompts(request, title), Segments, request, title, gen);
  }

  /** In a whole run every row is well formed. */
  lemma RunWellFormed(request: string, title: Option<string>, gen: Oracle)
    ensures AllWellFormed(Run(request, title, gen).rows, DefectTypes, DetectPrompts(request, title), request, title)
  {
    DetectPromptsSpec(request, title);
    CatalogDistinct();
    SegmentsClean();
    RunUpToRows(|DefectTypes|, DefectTypes, DetectPrompts(request, title), Segments, request, title, gen);
  }

  /** In a whole run every row carries the detection prompt
      `detection_prompt` builds for its defect type. */
  lemma RunDetectPrompts(request: string, title: Option<string>, gen: Oracle)
    ensures forall i :: 0 <= i < |Run(request, title, gen).rows| ==>
      DetectionPrompt(Run(request, title, gen).rows[i].defectType, request, title) == Ok(Run(request, title, gen).rows[i].detectPrompt)
  {
    var detectPrompts := DetectPrompts(request, title);
    var rows := Run(request, title, gen).rows;
    DetectPromptsSpec(request, title);
    RunWellFormed(request, title, gen);
    WellFormedPrompts(rows, DefectTypes, detectPrompts, request, title);
    forall i | 0 <= i < |rows|
      ensures DetectionPrompt(rows[i].defectType, request, title) == Ok(rows[i].detectPrompt)
    {
      var r := Rank(DefectTypes, rows[i].defectType);
      assert DetectionPrompt(DefectTypes[r], request, title) == Ok(detectPrompts[r]);
    }
  }

  /** In a whole run the rows are grouped by defect type in catalog
      order. */
  lemma RunGrouped(request: string, title: Option<string>, gen: Oracle)
    ensures Grouped(Run(request, title, gen).rows, DefectTypes)
  {
    DetectPromptsSpec(request, title);
    CatalogDistinct();
    RunUpToAscending(|DefectTypes|, DefectTypes, DetectPrompts(request, title), Segments, request, title, gen);
    AscendingGrouped(Run(request, title, gen).rows, DefectTypes);
  }

  /** No two rows of a run share a call: a later row is answered by a
      strictly later call. */
  lemma RunOwnCalls(request: string, title: Option<string>, gen: Oracle)
    ensures forall i :: 0 <= i < |Run(request, title, gen).rows| ==>
      Run(request, title, gen).rows[i].defectType in DefectTypes
    ensures forall i, j :: 0 <= i < j < |Run(request, title, gen).rows| ==>
      CallOf(Run(request, title, gen).rows, DefectTypes, i) < CallOf(Run(request, title, gen).rows, DefectTypes, j)
  {
    var rows := Run(request, title, gen).rows;
    RunGrouped(request, title, gen);
    RunAnswered(request, title, gen);
    forall i, j | 0 <= i < j < |rows|
      ensures CallOf(rows, DefectTypes, i) < CallOf(rows, DefectTypes, j)
    {
      assert NoLater(rows[i], rows[j], DefectTypes);
    }
  }

  /** In a whole run the rows of the r-th defect type are, in order, one
      per segment of the reply to the call that sent that type's
      detection prompt: they start at p, the number of rows of the
      defect types before it, and no other row has that type. */
  lemma RunSegments(request: string, title: Option<string>, gen: Oracle, r: nat)
    requires r < |DefectTypes|
    ensures var before := RunUpTo(r, DefectTypes, DetectPrompts(request, title), Segments, request, title, gen);
      SegmentsPlaced(Run(request, title, gen), |before.prompts|, |before.rows|, DetectPrompts(request, title)[r], DefectTypes[r],
                     Segments(gen(|before.prompts|, DetectPrompts(request, title)[r])))
  {
    DetectPromptsSpec(request, title);
    CatalogDistinct();
    RunUpToSegments(|DefectTypes|, r, DefectTypes, DetectPrompts(request, title), request, title, gen);
  }

  /** Extending the segments considered by one. */
  lemma KeptSnoc(segments: seq<string>, j: nat)
    requires j < |segments|
    ensures Kept(segments[..j + 1])
      == Kept(segments[..j]) + (if Survives(segments[j]) then [segments[j]] else [])
  {
    assert segments[..j + 1][..j] == segments[..j];
  }

  /** The inner loop of `questions_for_request`: one question call per
      segment of a detection reply, the first made as call k. */
  method CollectQuestions(generation: string, defectType: string, request: string, title: Option<string>,
                          detectPrompt: string, gen: Oracle, k: nat)
    returns (rows: seq<Finding>, prompts: seq<string>)
    ensures rows == QuestionRows(Segments(generation), defectType, request, title, detectPrompt, gen, k)
    ensures prompts == QuestionPrompts(Segments(generation), defectType, request)
  {
    rows, prompts := [], [];
    var pieces := Split(generation, ',');
    ghost var cleaned := Cleaned(pieces);
    for j := 0 to |pieces|
      invariant rows == QuestionRows(Kept(cleaned[..j]), defectType, request, title, detectPrompt, gen, k)
      invariant prompts == QuestionPrompts(Kept(cleaned[..j]), defectType, request)
    {
      KeptSnoc(cleaned, j);
      ghost var kept := Kept(cleaned[..j]);
      var segment := Clean(pieces[j]);
      assert segment == cleaned[j];
      if Lower(segment) != NoDefectFound {
        var questionPrompt := QuestionPrompt(segment, defectType, request);
        var question := gen(k + |prompts|, questionPrompt);
        QuestionRowsSnoc(kept, segment, defectType, request, title, detectPrompt, gen, k);
        prompts := prompts + [questionPrompt];
        rows := rows + [Finding(request, title, detectPrompt, segment, defectType, questionPrompt, question, None)];
        assert Kept(cleaned[..j + 1]) == kept + [segment];
      } else {
        assert Kept(cleaned[..j + 1]) == kept;
      }
    }
    assert cleaned[..|pieces|] == cleaned;
  }

  /** One pass of the outer loop of `questions_for_request`: the detection
      call for one defect type, made as call k, then its questions. */
  method CollectStage(defectType: string, request: string, title: Option<string>, gen: Oracle, k: nat)
    returns (rows: seq<Finding>, prompts: seq<string>)
    requires defectType in DefectTypes
    ensures Trace(rows, prompts) == Stage(defectType, CatalogPrompt(defectType, request, title), Segments, request, title, gen, k)
  {
    var detectPrompt := CatalogPrompt(defectType, request, title);
    var generation := gen(k, detectPrompt);
    var questions;
    rows, questions := CollectQuestions(generation, defectType, request, title, detectPrompt, gen, k + 1);
    prompts := [detectPrompt] + questions;
  }

  /** The loops of `questions_for_request`: the rows and the prompts sent,
      which are those of the specification `Run`. */
  method CollectFindings(request: string, title: Option<string>, gen: Oracle)
    returns (results: seq<Finding>, prompts: seq<string>)
    ensures Trace(results, prompts) == Run(request, title, gen)
  {
    ghost var detectPrompts := DetectPrompts(request, title);
    results, prompts := [], [];
    for i := 0 to |DefectTypes|
      invariant Trace(results, prompts) == RunUpTo(i, DefectTypes, detectPrompts, Segments, request, title, gen)
    {
      var rows, sent := CollectStage(DefectTypes[i], request, title, gen, |prompts|);
      assert detectPrompts[i] == CatalogPrompt(DefectTypes[i], request, title);
      results, prompts := results + rows, prompts + sent;
    }
  }

  /** `questions_for_request`: the rows collected, as a table. It returns
      only the table; the log of prompts sent is a ghost result that ties
      the table to the calls made. */
  method QuestionsForRequest(request: string, title: Option<string>, gen: Oracle)
    returns (table: array<Finding>, ghost prompts: seq<string>)
    ensures fresh(table)
    ensures Trace(table[..], prompts) == Run(request, title, gen)
  {
    var results, sent := CollectFindings(request, title, gen);
    prompts := sent;
    table := new Finding[|results|](i requires 0 <= i < |results| => results[i]);
    assert table[..] == results;
  }
}
