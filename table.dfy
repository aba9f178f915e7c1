/** The two operations on the result table after it is built:
    `get_questions_list`, which lists every row's question with its
    position, and `save_answer`, which writes an answer into the rows whose
    question text matches. */
module QuestionTable {
  import opened Wrappers
  import opened Pipeline

  /** One entry of the question list handed to the interface. */
  datatype QuestionRecord = QuestionRecord(rowIndex: nat, question: string, segment: string, defectType: string)

  /** The entry that lists row i. */
  function RecordOf(rows: seq<Finding>, i: nat): QuestionRecord
    requires i < |rows|
  {
    QuestionRecord(i, rows[i].question, rows[i].segment, rows[i].defectType)
  }

  /** The question list of a table whose rows are numbered from 0 in
      order. */
  function Questions(rows: seq<Finding>): seq<QuestionRecord> {
    seq(|rows|, i requires 0 <= i < |rows| => RecordOf(rows, i))
  }

  /** The question list has one entry per row, in row order, and each
      entry's index leads back to a row with that question, segment and
      defect type. */
  lemma QuestionsResolve(rows: seq<Finding>)
    ensures |Questions(rows)| == |rows|
    ensures forall k :: 0 <= k < |rows| ==>
      && Questions(rows)[k].rowIndex == k
      && rows[Questions(rows)[k].rowIndex].question == Questions(rows)[k].question
      && rows[Questions(rows)[k].rowIndex].segment == Questions(rows)[k].segment
      && rows[Questions(rows)[k].rowIndex].defectType == Questions(rows)[k].defectType
  {
  }

  /** `get_questions_list`: walks the table row by row. */
  method GetQuestionsList(table: array<Finding>) returns (list: seq<QuestionRecord>)
    ensures list == Questions(table[..])
  {
    list := [];
    var idx := 0;
    while idx < table.Length
      invariant 0 <= idx <= table.Length
      invariant list == Questions(table[..idx])
    {
      var row := table[idx];
      assert table[..idx + 1] == table[..idx] + [row];
      list := list + [QuestionRecord(idx, row.question, row.segment, row.defectType)];
      idx := idx + 1;
    }
    assert table[..idx] == table[..];
  }

  /** The row after `save_answer`: the answer where the question text
      matches, and no answer everywhere else. */
  function AnswerRow(row: Finding, question: string, answer: string): Finding {
    row.(answer := if row.question == question then Some(answer) else None)
  }

  /** The table after `save_answer`. */
  function WithAnswer(rows: seq<Finding>, question: string, answer: string): seq<Finding> {
    seq(|rows|, i requires 0 <= i < |rows| => AnswerRow(rows[i], question, answer))
  }

  /** `save_answer`: recomputes the answer column of the whole table in
      place. */
  method SaveAnswer(table: array<Finding>, question: string, answer: string)
    modifies table
    ensures table[..] == WithAnswer(old(table[..]), question, answer)
  {
    forall i | 0 <= i < table.Length {
      table[i] := AnswerRow(table[i], question, answer);
    }
  }

  /** Only the answer column changes; it holds the answer exactly in the
      rows whose question text equals the one answered, and is cleared in
      every other row, whatever it held before. */
  lemma AnsweredSpec(rows: seq<Finding>, question: string, answer: string)
    ensures |WithAnswer(rows, question, answer)| == |rows|
    ensures forall i :: 0 <= i < |rows| ==>
      && WithAnswer(rows, question, answer)[i].(answer := rows[i].answer) == rows[i]
      && (WithAnswer(rows, question, answer)[i].answer == Some(answer) <==> rows[i].question == question)
      && (WithAnswer(rows, question, answer)[i].answer == None <==> rows[i].question != question)
  {
  }

  /** Saving one answer forgets every earlier one: only the latest call
      counts. */
  lemma LatestAnswerWins(rows: seq<Finding>, q1: string, a1: string, q2: string, a2: string)
    ensures WithAnswer(WithAnswer(rows, q1, a1), q2, a2) == WithAnswer(rows, q2, a2)
  {
    var once := WithAnswer(rows, q1, a1);
    assert |once| == |rows|;
    forall i | 0 <= i < |rows|
      ensures WithAnswer(once, q2, a2)[i] == WithAnswer(rows, q2, a2)[i]
    {
      assert once[i].question == rows[i].question;
    }
  }

  /** Saving the same answer twice changes nothing more. */
  lemma SaveAnswerIdempotent(rows: seq<Finding>, question: string, answer: string)
    ensures WithAnswer(WithAnswer(rows, question, answer), question, answer) == WithAnswer(rows, question, answer)
  {
    LatestAnswerWins(rows, question, answer, question, answer);
  }

  /** Answering leaves the question list as it was. */
  lemma AnsweringKeepsQuestions(rows: seq<Finding>, question: string, answer: string)
    ensures Questions(WithAnswer(rows, question, answer)) == Questions(rows)
  {
    assert |WithAnswer(rows, question, answer)| == |rows|;
  }

  /** Answering a listed question stores the answer in the row the entry
      points to, and in every other row with the same question text. */
  lemma AnswerReachesListedRow(rows: seq<Finding>, k: nat, answer: string)
    requires k < |rows|
    ensures var entry := Questions(rows)[k];
      && entry.rowIndex < |rows|
      && WithAnswer(rows, entry.question, answer)[entry.rowIndex].answer == Some(answer)
      && forall i :: 0 <= i < |rows| && rows[i].question == entry.question ==>
           WithAnswer(rows, entry.question, answer)[i].answer == Some(answer)
  {
  }

  /** A question text that no row has clears the whole answer column. */
  lemma UnknownQuestionClearsAnswers(rows: seq<Finding>, question: string, answer: string)
    requires forall i :: 0 <= i < |rows| ==> rows[i].question != question
    ensures forall i :: 0 <= i < |rows| ==> WithAnswer(rows, question, answer)[i].answer == None
  {
  }
}
