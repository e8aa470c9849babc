/**
 * Rendering of a conversation's earlier messages into the context block that precedes a
 * follow-up question (`build_conversation_context` in test_context_fix.py): a header,
 * one line per user question, one line per assistant answer (long answers cut to 800
 * characters) followed by the SQL it ran, and a footer.
 */
module ConversationContext {
  import opened Wrappers
  import opened Text

  /** One message of the history: role, content and, for answers, the SQL that ran. */
  datatype HistoryEntry = HistoryEntry(role: string, content: string, sql: Option<string>)

  const HEADER := "\n\nCONTEXTO DE CONVERSACIÓN PREVIA:\n"
  const FOOTER := "\nFIN DEL CONTEXTO PREVIO\n"
  const USER_LINE := "Usuario preguntó: \""
  const ASSISTANT_LINE := "Asistente respondió: \""
  const SQL_LINE := "SQL ejecutado: "
  const LINE_END := "\"\n"
  const ANSWER_LIMIT := 800
  const ELLIPSIS := "..."

  /** An answer longer than the limit keeps its first 800 characters and gains "...". */
  function Truncate(c: string): (r: string)
    ensures |r| <= ANSWER_LIMIT + |ELLIPSIS|
    ensures |c| <= ANSWER_LIMIT ==> r == c
    ensures |c| > ANSWER_LIMIT ==> |r| == ANSWER_LIMIT + |ELLIPSIS| && r[..ANSWER_LIMIT] == c[..ANSWER_LIMIT]
                                   && EndsWith(r, ELLIPSIS)
  {
    if |c| > ANSWER_LIMIT then c[..ANSWER_LIMIT] + ELLIPSIS else c
  }

  /** `mensaje.get("consulta_sql")` is truthy. */
  predicate HasSql(m: HistoryEntry) {
    m.sql.Some? && m.sql.value != ""
  }

  /** The lines one message contributes. */
  function RenderEntry(m: HistoryEntry): string {
    if m.role == "user" then USER_LINE + m.content + LINE_END
    else if m.role == "assistant" then
      ASSISTANT_LINE + Truncate(m.content) + LINE_END
      + (if HasSql(m) then SQL_LINE + m.sql.value + "\n" else "")
    else ""
  }

  /** The lines of all messages, in history order. */
  function RenderAll(h: seq<HistoryEntry>): string {
    if |h| == 0 then "" else RenderEntry(h[0]) + RenderAll(h[1..])
  }

  /** `build_conversation_context`: empty for a missing or empty history, otherwise the
      messages' lines between the header and the footer. */
  function BuildContext(h: Option<seq<HistoryEntry>>): (r: string)
    ensures r == "" <==> h.None? || |h.value| == 0
    ensures r != "" ==> StartsWith(r, HEADER) && EndsWith(r, FOOTER)
  {
    if h.None? || |h.value| == 0 then ""
    else
      var r := HEADER + RenderAll(h.value) + FOOTER;
      assert r[..|HEADER|] == HEADER;
      assert r[|r| - |FOOTER|..] == FOOTER;
      r
  }

  /** Rendering a history is rendering its parts one after the other. */
  lemma {:induction false} RenderAllAppend(a: seq<HistoryEntry>, b: seq<HistoryEntry>)
    ensures RenderAll(a + b) == RenderAll(a) + RenderAll(b)
  {
    if |a| == 0 {
      assert a + b == b;
    } else {
      assert (a + b)[1..] == a[1..] + b;
      RenderAllAppend(a[1..], b);
    }
  }

  /** The context is the messages' own lines, each message rendered on its own. */
  lemma RenderAllSplit(h: seq<HistoryEntry>, i: nat)
    requires i < |h|
    ensures RenderAll(h) == RenderAll(h[..i]) + RenderEntry(h[i]) + RenderAll(h[i + 1..])
  {
    var a, b := h[..i], h[i + 1..];
    SplitAt(h, i);
    RenderAllAppend(a, [h[i]] + b);
    RenderAllCons(h[i], b);
  }

  lemma SplitAt<T>(h: seq<T>, i: nat)
    requires i < |h|
    ensures h == h[..i] + ([h[i]] + h[i + 1..])
  {
  }

  lemma RenderAllCons(m: HistoryEntry, rest: seq<HistoryEntry>)
    ensures RenderAll([m] + rest) == RenderEntry(m) + RenderAll(rest)
  {
    assert ([m] + rest)[1..] == rest;
  }

  /** The rendered line of a message occurs in the context of any history holding it. */
  lemma EntryInContext(h: seq<HistoryEntry>, i: nat)
    requires i < |h|
    ensures Contains(BuildContext(Some(h)), RenderEntry(h[i]))
  {
    RenderAllSplit(h, i);
    var x, e, y := RenderAll(h[..i]), RenderEntry(h[i]), RenderAll(h[i + 1..]);
    assert BuildContext(Some(h)) == HEADER + (x + e + y) + FOOTER;
    Regroup(HEADER, x, e, y, FOOTER);
    ContainsMiddle(HEADER + x, e, y + FOOTER);
  }

  /** A user's question is quoted in full however long it is. */
  lemma UserQuestionKept(h: seq<HistoryEntry>, i: nat)
    requires i < |h| && h[i].role == "user"
    ensures Contains(BuildContext(Some(h)), USER_LINE + h[i].content + LINE_END)
  {
    EntryInContext(h, i);
  }

  /** An answer of at most 800 characters is quoted in full, so every passage of it
      survives into the context; a longer one keeps its first 800 characters. */
  lemma AnswerPassageKept(h: seq<HistoryEntry>, i: nat, passage: string)
    requires i < |h| && h[i].role == "assistant"
    requires Contains(Truncate(h[i].content), passage)
    ensures Contains(BuildContext(Some(h)), passage)
  {
    var m := h[i];
    var tail := LINE_END + (if HasSql(m) then SQL_LINE + m.sql.value + "\n" else "");
    assert RenderEntry(m) == ASSISTANT_LINE + Truncate(m.content) + tail;
    ContainsMiddle(ASSISTANT_LINE, Truncate(m.content), tail);
    EntryInContext(h, i);
    ContainsTrans(BuildContext(Some(h)), RenderEntry(m), Truncate(m.content));
    ContainsTrans(BuildContext(Some(h)), Truncate(m.content), passage);
  }

  /** An answer is followed by an "SQL ejecutado" line exactly when its SQL is non-empty;
      messages of any other role contribute nothing. */
  lemma EntryLines(m: HistoryEntry)
    ensures m.role == "assistant" && HasSql(m)
            ==> EndsWith(RenderEntry(m), SQL_LINE + m.sql.value + "\n")
    ensures m.role == "assistant" && !HasSql(m)
            ==> RenderEntry(m) == ASSISTANT_LINE + Truncate(m.content) + LINE_END
    ensures m.role != "user" && m.role != "assistant" ==> RenderEntry(m) == ""
  {
    var r := RenderEntry(m);
    if m.role == "assistant" {
      if HasSql(m) {
        var l := SQL_LINE + m.sql.value + "\n";
        assert r[|r| - |l|..] == l;
      }
    }
  }

  /** The two-message history of the memory regression scenario: the top three countries
      by medals, the third being Australia. */
  const RANKING_BEFORE := "Here are the top 3 countries with the most Olympic medals of all time: "
    + "1. United States - 1,992 total medals - 928 gold medals - 583 silver medals - 481 bronze medals "
    + "2. Soviet Union - 1,021 total medals - 439 gold medals - 285 silver medals - 297 bronze medals "
  const THIRD_PLACE := "3."
  const THIRD_COUNTRY := "Australia"
  const THIRD_MEDALS := "798 total medals"
  const RANKING_THIRD := THIRD_PLACE + " " + THIRD_COUNTRY + " - " + THIRD_MEDALS
  const RANKING_AFTER := " - 216 gold medals - 270 silver medals - 312 bronze medals As you can see, "
    + "the United States maintains clear dominance with almost double the medals of the Soviet Union, "
    + "which occupies second place. Australia completes the podium with solid and consistent "
    + "performance throughout its Olympic history."

  const RANKING_ANSWER := RANKING_BEFORE + RANKING_THIRD + RANKING_AFTER

  const RANKING_QUESTION := "Give me the top 3 countries with the most medals"
  const RANKING_SQL := "SELECT country, COUNT(*) as total_medals, SUM(CASE WHEN medal = 'Gold' THEN 1 ELSE 0 END) "
    + "as gold_medals FROM medallas_olimpicas GROUP BY country ORDER BY total_medals DESC LIMIT 3"

  /** The scenario's history; the question and the query are parameters because only the
      answer matters for what survives. */
  function RankingHistory(question: string, sql: Option<string>): (h: seq<HistoryEntry>)
    ensures |h| == 2 && h[1].content == RANKING_ANSWER
  {
    [ HistoryEntry("user", question, None), HistoryEntry("assistant", RANKING_ANSWER, sql) ]
  }

  /** The third country and its medal count reach the context, since the answer is under
      the truncation limit; this holds for the scenario's own question and query
      (`RANKING_QUESTION`, `Some(RANKING_SQL)`) as for any other. */
  lemma RankingSurvives(question: string, sql: Option<string>)
    ensures Contains(BuildContext(Some(RankingHistory(question, sql))), THIRD_COUNTRY)
    ensures Contains(BuildContext(Some(RankingHistory(question, sql))), THIRD_PLACE)
    ensures Contains(BuildContext(Some(RankingHistory(question, sql))), THIRD_MEDALS)
  {
    RankingKept(RankingHistory(question, sql), 1);
  }

  /** Any history holding the ranking answer keeps its third place in the context. */
  lemma RankingKept(h: seq<HistoryEntry>, i: nat)
    requires i < |h| && h[i].role == "assistant" && h[i].content == RANKING_ANSWER
    ensures Contains(BuildContext(Some(h)), THIRD_COUNTRY)
    ensures Contains(BuildContext(Some(h)), THIRD_PLACE)
    ensures Contains(BuildContext(Some(h)), THIRD_MEDALS)
  {
    RankingAnswerMentions();
    RankingShort();
    ShortAnswerKept(h, i, THIRD_COUNTRY);
    ShortAnswerKept(h, i, THIRD_PLACE);
    ShortAnswerKept(h, i, THIRD_MEDALS);
  }

  lemma RankingShort()
    ensures |RANKING_ANSWER| <= ANSWER_LIMIT
  {
  }

  /** The ranking answer names the third place, its country and its medal count. */
  lemma RankingAnswerMentions()
    ensures Contains(RANKING_ANSWER, THIRD_COUNTRY) && Contains(RANKING_ANSWER, THIRD_PLACE)
            && Contains(RANKING_ANSWER, THIRD_MEDALS)
  {
    var answer := RANKING_ANSWER;
    var placed := THIRD_PLACE + " " + THIRD_COUNTRY;
    ContainsMiddle(RANKING_BEFORE, RANKING_THIRD, RANKING_AFTER);
    ContainsEnds(placed + " - ", THIRD_MEDALS);
    ContainsEnds(placed, " - ");
    ContainsEnds(THIRD_PLACE + " ", THIRD_COUNTRY);
    ContainsEnds(THIRD_PLACE, " ");
    ContainsTrans(answer, RANKING_THIRD, THIRD_MEDALS);
    ContainsTrans(answer, RANKING_THIRD, placed + " - ");
    ContainsTrans(answer, placed + " - ", placed);
    ContainsTrans(answer, placed, THIRD_COUNTRY);
    ContainsTrans(answer, placed, THIRD_PLACE + " ");
    ContainsTrans(answer, THIRD_PLACE + " ", THIRD_PLACE);
  }

  /** Every passage of an answer of at most 800 characters reaches the context. */
  lemma ShortAnswerKept(h: seq<HistoryEntry>, i: nat, passage: string)
    requires i < |h| && h[i].role == "assistant" && |h[i].content| <= ANSWER_LIMIT
    requires Contains(h[i].content, passage)
    ensures Contains(BuildContext(Some(h)), passage)
  {
    AnswerPassageKept(h, i, passage);
  }
}
