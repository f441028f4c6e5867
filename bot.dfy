/**
 * The FAQ matcher and reply formatter of the labour-law bot: `find_answer`
 * and the text that `handle_message` sends back.
 *
 * The knowledge base is a parameter (its module is not part of this model),
 * and so are Python's `str.lower` and `str.strip`, whose Unicode case mapping
 * and whitespace rules are library behaviour.
 */
module Bot {
  import opened Wrappers
  import opened Text

  /** One knowledge-base record: its keywords, the canned answer and the citation. */
  datatype Entry = Entry(keywords: seq<string>, answer: string, source: string)

  /** The line that `start` sends for the /start command. */
  const Greeting: string :=
    "Здравствуйте! Я — бот по трудовому праву и коллективному договору ОАО «РЖД».\n\n"
    + "📌 Задайте любой вопрос, например:\n"
    + "• Какая индексация зарплаты на РЖД?\n"
    + "• Что положено при рождении ребёнка?\n"
    + "• Могут ли уволить обоих супругов?\n\n"
    + "⚠\U{FE0F} Я не заменяю юриста. Для сложных ситуаций обратитесь к специалисту."

  /** What separates an answer from its citation in a reply. */
  const Separator: string := "\n\n📌 Источник: "

  /** The reply when no entry matches. */
  const Fallback: string :=
    "К сожалению, я не нашёл точного ответа в своей базе.\n\n"
    + "💡 Попробуйте:\n"
    + "• Уточнить вопрос;\n"
    + "• Использовать слова: «РЖД», «зарплата», «отпуск», «увольнение», «льготы»."

  /** Some keyword of the list occurs in `q`. */
  ghost predicate Mentions(keywords: seq<string>, q: string)
  {
    exists k :: 0 <= k < |keywords| && Occurs(keywords[k], q)
  }

  /** The entry is a hit for the (already lowercased) question `q`. */
  ghost predicate Matches(e: Entry, q: string)
  {
    Mentions(e.keywords, q)
  }

  /** Entry `i` matches `q` and no earlier entry does. */
  ghost predicate IsFirstMatch(kb: seq<Entry>, i: int, q: string)
  {
    0 <= i < |kb| && Matches(kb[i], q) && forall j :: 0 <= j < i ==> !Matches(kb[j], q)
  }

  /** No entry of the base matches `q`. */
  ghost predicate NoMatch(kb: seq<Entry>, q: string)
  {
    forall j :: 0 <= j < |kb| ==> !Matches(kb[j], q)
  }

  /** `any(kw in q for kw in keywords)`. */
  function AnyKeywordIn(keywords: seq<string>, q: string): (r: bool)
    ensures r <==> Mentions(keywords, q)
  {
    if keywords == [] then false
    else if Contains(q, keywords[0]) then true
    else
      assert forall k :: 1 <= k < |keywords| ==> keywords[1..][k - 1] == keywords[k];
      AnyKeywordIn(keywords[1..], q)
  }

  /** The position of the first entry of `kb` that matches `q`, scanning in order. */
  function FirstMatch(kb: seq<Entry>, q: string): (r: Option<nat>)
    ensures r.Some? ==> IsFirstMatch(kb, r.value, q)
    ensures r.None? <==> NoMatch(kb, q)
  {
    if kb == [] then None
    else if AnyKeywordIn(kb[0].keywords, q) then Some(0)
    else
      match FirstMatch(kb[1..], q)
      case None =>
        assert forall j :: 1 <= j < |kb| ==> kb[1..][j - 1] == kb[j];
        None
      case Some(i) =>
        assert forall j :: 1 <= j <= i + 1 ==> kb[1..][j - 1] == kb[j];
        Some(i + 1)
  }

  /** `find_answer(question)`: the first entry with a keyword inside `lower(question)`. */
  function FindAnswer(kb: seq<Entry>, lower: string -> string, question: string): (r: Option<Entry>)
    ensures r.Some? ==> r.value in kb && Matches(r.value, lower(question))
    ensures r.Some? ==> exists i :: IsFirstMatch(kb, i, lower(question)) && kb[i] == r.value
    ensures r.None? <==> forall e :: e in kb ==> !Matches(e, lower(question))
  {
    match FirstMatch(kb, lower(question))
    case None => None
    case Some(i) => Some(kb[i])
  }

  /** The reply text for a matched entry: its answer, a blank line, then the citation line. */
  function FormatAnswer(e: Entry): (r: string)
    ensures |r| == |e.answer| + |Separator| + |e.source|
    ensures r[..|e.answer|] == e.answer
    ensures r[|e.answer|..|e.answer| + |Separator|] == Separator
    ensures r[|e.answer| + |Separator|..] == e.source
  {
    e.answer + Separator + e.source
  }

  /**
   * What `handle_message` sends for an incoming text: nothing when the
   * stripped text is empty, the formatted first match otherwise, or the
   * fallback when no entry matches.
   */
  function Reply(kb: seq<Entry>, lower: string -> string, strip: string -> string, text: string): (r: Option<string>)
    ensures r.None? <==> strip(text) == ""
    ensures forall i :: strip(text) != "" && IsFirstMatch(kb, i, lower(strip(text)))
              ==> r == Some(FormatAnswer(kb[i]))
    ensures strip(text) != "" && NoMatch(kb, lower(strip(text))) ==> r == Some(Fallback)
  {
    var question := strip(text);
    if question == "" then None
    else
      match FindAnswer(kb, lower, question)
      case Some(e) => Some(FormatAnswer(e))
      case None => Some(Fallback)
  }

  /** Some entry of the base carries the empty keyword, which occurs in every question. */
  ghost predicate HasEmptyKeyword(kb: seq<Entry>)
  {
    exists j, k :: 0 <= j < |kb| && 0 <= k < |kb[j].keywords| && kb[j].keywords[k] == ""
  }

  /** Whenever entry `i` is the first hit for the lowered question, `find_answer` returns it. */
  lemma FindAnswerReturnsFirstHit(kb: seq<Entry>, lower: string -> string, question: string, i: int)
    requires IsFirstMatch(kb, i, lower(question))
    ensures FindAnswer(kb, lower, question) == Some(kb[i])
  {
  }

  /**
   * Scanning `a + b` finds the first hit of `a` if there is one, otherwise the
   * first hit of `b`, shifted past `a`: order in the base is the only tie-break.
   */
  lemma {:induction false} FirstMatchAppend(a: seq<Entry>, b: seq<Entry>, q: string)
    ensures FirstMatch(a + b, q) ==
      if FirstMatch(a, q).Some? then FirstMatch(a, q)
      else match FirstMatch(b, q)
           case None => None
           case Some(i) => Some(|a| + i)
  {
    if a == [] {
      assert a + b == b;
    } else {
      assert (a + b)[0] == a[0];
      assert (a + b)[1..] == a[1..] + b;
      FirstMatchAppend(a[1..], b, q);
    }
  }

  /** With an empty knowledge base there is never a match. */
  lemma FindAnswerEmptyBase(lower: string -> string, question: string)
    ensures FindAnswer([], lower, question) == None
  {
  }

  /** The result depends on the question only through its lowercased form. */
  lemma FindAnswerCaseInsensitive(kb: seq<Entry>, lower: string -> string, q1: string, q2: string)
    requires lower(q1) == lower(q2)
    ensures FindAnswer(kb, lower, q1) == FindAnswer(kb, lower, q2)
  {
  }

  /**
   * The empty question (whose lowercase form is empty) matches exactly when
   * some entry has the empty keyword; with no such keyword it never matches.
   */
  lemma FindAnswerEmptyQuestion(kb: seq<Entry>, lower: string -> string)
    requires lower("") == ""
    ensures FindAnswer(kb, lower, "").Some? <==> HasEmptyKeyword(kb)
  {
    if FindAnswer(kb, lower, "").Some? {
      var i :| IsFirstMatch(kb, i, "");
      var k :| 0 <= k < |kb[i].keywords| && Occurs(kb[i].keywords[k], "");
      OccursNoLonger(kb[i].keywords[k], "");
    }
    if HasEmptyKeyword(kb) {
      var j, k :| 0 <= j < |kb| && 0 <= k < |kb[j].keywords| && kb[j].keywords[k] == "";
      EmptyOccurs("");
      assert Matches(kb[j], "");
    }
  }

  /** Two entries whose answers have the same length format alike only if they agree. */
  lemma FormatAnswerInjective(e1: Entry, e2: Entry)
    requires |e1.answer| == |e2.answer|
    requires FormatAnswer(e1) == FormatAnswer(e2)
    ensures e1.answer == e2.answer && e1.source == e2.source
  {
  }

  /** A blank message gets no reply, whatever the base. */
  lemma ReplyBlank(kb: seq<Entry>, lower: string -> string, strip: string -> string, text: string)
    requires strip(text) == ""
    ensures Reply(kb, lower, strip, text) == None
  {
  }

  /**
   * The fallback reply is the same text for every unmatched question and
   * every knowledge base.
   */
  lemma FallbackIndependent(kb1: seq<Entry>, kb2: seq<Entry>, lower: string -> string,
                            strip: string -> string, t1: string, t2: string)
    requires strip(t1) != "" && NoMatch(kb1, lower(strip(t1)))
    requires strip(t2) != "" && NoMatch(kb2, lower(strip(t2)))
    ensures Reply(kb1, lower, strip, t1) == Reply(kb2, lower, strip, t2) == Some(Fallback)
  {
  }

  /** With an empty knowledge base every non-blank message gets the fallback. */
  lemma ReplyEmptyBase(lower: string -> string, strip: string -> string, text: string)
    requires strip(text) != ""
    ensures Reply([], lower, strip, text) == Some(Fallback)
  {
  }

  /** A one-entry base: "отпуск" → "28 дней", cited to "ТК РФ". */
  const VacationBase: seq<Entry> := [Entry(["отпуск"], "28 дней", "ТК РФ")]

  /** The keyword "отпуск" occurs in the example question, at position 13. */
  lemma VacationQuestionMatches()
    ensures IsFirstMatch(VacationBase, 0, "какой у меня отпуск?")
  {
    var q := "какой у меня отпуск?";
    assert "отпуск" <= q[13..];
    assert Occurs(VacationBase[0].keywords[0], q);
  }

  /** The formatted reply for the example entry, written out. */
  lemma VacationReplyText()
    ensures FormatAnswer(VacationBase[0]) == "28 дней\n\n📌 Источник: ТК РФ"
  {
  }

  /** A question mentioning "отпуск" is answered with "28 дней" cited to "ТК РФ". */
  lemma ReplyVacationExample(lower: string -> string, strip: string -> string)
    requires strip("какой у меня отпуск?") == "какой у меня отпуск?"
    requires lower("какой у меня отпуск?") == "какой у меня отпуск?"
    ensures Reply(VacationBase, lower, strip, "какой у меня отпуск?")
            == Some("28 дней\n\n📌 Источник: ТК РФ")
  {
    var q := "какой у меня отпуск?";
    VacationQuestionMatches();
    FindAnswerReturnsFirstHit(VacationBase, lower, q, 0);
    calc {
      Reply(VacationBase, lower, strip, q);
      Some(FormatAnswer(VacationBase[0]));
      { VacationReplyText(); }
      Some("28 дней\n\n📌 Источник: ТК РФ");
    }
  }

  /** A question without "отпуск" gets the fallback from the same base. */
  lemma ReplyWeatherExample(lower: string -> string, strip: string -> string)
    requires strip("погода") == "погода"
    requires lower("погода") == "погода"
    ensures Reply(VacationBase, lower, strip, "погода") == Some(Fallback)
  {
    var q := "погода";
    forall i | 0 <= i <= |q| ensures !("отпуск" <= q[i..]) {
      if 0 < i {
        assert |q[i..]| < |"отпуск"|;
      } else {
        assert q[i..][0] == 'п';
      }
    }
    assert !Matches(VacationBase[0], q);
  }
}
