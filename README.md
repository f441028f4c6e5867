# FAQ matcher and reply formatter of the labour-law Telegram bot

The bot answers free-text questions about labour law and the collective
agreement of Russian Railways. It uses a static knowledge base. Each entry holds
a list of keywords, a canned answer and a source citation. `find_answer`
lowercases the question and returns the first entry, in knowledge-base order,
for which some keyword occurs as a substring of the lowercased question. If no
entry matches, it returns `None`. `handle_message` strips the incoming text. It
sends nothing when the stripped text is empty. Otherwise it sends the matched
entry's answer followed by a blank line and a "📌 Источник: …" citation line,
or a fixed fallback text when nothing matches. `start` always sends a fixed
greeting.

The project has three modules:

- `Wrappers` (wrappers.dfy): `Option`, the model of Python's `dict | None`.
- `Text` (text.dfy): Python's `kw in s` on strings as a scanning function,
  `Contains`. It is proved equal to a declarative definition, `Occurs`: some
  suffix of `s` starts with `kw`.
- `Bot` (bot.dfy): the `Entry` record, the keyword test `AnyKeywordIn`, the
  ordered scan `FirstMatch` and `FindAnswer`, the formatter `FormatAnswer`, the
  handler's reply `Reply`, and the constants `Greeting`, `Separator` and
  `Fallback`. The constants are copied character for character from the
  source.

Three things are parameters of the model:

- The knowledge base, a `seq<Entry>`. Its module is not part of this model.
- `str.lower`, a `string -> string` function.
- `str.strip`, a `string -> string` function.

Each of these is only known through what callers assume about it.

Two edge cases of the matching rule are worth stating:

- One might expect the empty question never to match. In the code, an entry
  with the empty keyword `""` matches every question, including the empty one.
  `FindAnswerEmptyQuestion` states exactly when the empty question matches.
  `handle_message` never passes an empty question in any case.
- bot.py:25 iterates `item["keywords"]`, whatever finite iterable of strings
  that is. The knowledge-base module is not part of this model. `any` over a
  finite iterable of strings does not depend on the order, so the model uses
  `seq<string>`.

## Model

| member | source | states |
|---|---|---|
| `Text.Contains` | bot.py:25 | `kw in s` is true exactly when `kw` occurs at some position of `s` |
| `Text.OccursStep` | bot.py:25 | when `kw` is not a prefix of a non-empty `s`, it occurs in `s` iff it occurs in the tail of `s` |
| `Text.OccursNoLonger` | bot.py:25 | a keyword contained in a question is no longer than it; only `""` is contained in `""` |
| `Text.EmptyOccurs` | bot.py:25 | the empty keyword is contained in every string |
| `Bot.AnyKeywordIn` | bot.py:25 | `any(kw in q for kw in keywords)` is true iff some keyword of the list occurs in `q` |
| `Bot.FirstMatch` | bot.py:24-27 | returns the index of an entry that matches, with no earlier entry matching; returns none iff no entry of the base matches |
| `Bot.FindAnswer` | bot.py:22-27 | a returned entry belongs to the base and matches the lowercased question; it sits at the first matching position; `None` iff no entry matches the lowercased question |
| `Bot.FindAnswerReturnsFirstHit` | bot.py:24-26 | whenever entry `i` is the first entry with a keyword in the lowercased question, `find_answer` returns exactly that entry |
| `Bot.FirstMatchAppend` | bot.py:24-26 | scanning `a + b` yields the first hit in `a` if any, else the first hit in `b` shifted past `a`: base order is the only tie-break |
| `Bot.FindAnswerEmptyBase` | bot.py:24-27 | with an empty knowledge base every question gives `None` |
| `Bot.FindAnswerCaseInsensitive` | bot.py:23 | two questions with the same lowercase form give the same result |
| `Bot.FindAnswerEmptyQuestion` | bot.py:23-27 | when `lower("") == ""`, the empty question matches iff some entry has the empty keyword |
| `Bot.FormatAnswer` | bot.py:46-47 | the reply is the answer, then `"\n\n📌 Источник: "`, then the source, each found at its position with nothing else in between |
| `Bot.FormatAnswerInjective` | bot.py:47 | two entries with equal-length answers give the same reply only if their answers and sources are equal |
| `Bot.Greeting` | bot.py:31-38 | the fixed /start greeting, character for character |
| `Bot.Reply` | bot.py:40-54 | no reply iff the stripped text is empty; otherwise the formatted first matching entry, or the fallback text when no entry matches |
| `Bot.ReplyBlank` | bot.py:41-43 | a message whose stripped text is empty gets no reply, whatever the base |
| `Bot.FallbackIndependent` | bot.py:48-54 | every unmatched non-blank message gets the same fallback text, regardless of the question and of the base |
| `Bot.ReplyEmptyBase` | bot.py:45-54 | with an empty base every non-blank message gets the fallback text |
| `Bot.ReplyVacationExample` | bot.py:45-47 | with the single entry (`отпуск` → `28 дней`, `ТК РФ`), "какой у меня отпуск?" is answered with "28 дней\n\n📌 Источник: ТК РФ" |
| `Bot.ReplyWeatherExample` | bot.py:45-54 | with the same base, "погода" gets the fallback text |

## Left out

- The Telegram client plumbing: `Application`, the handler registration,
  `reply_text` and the async machinery (bot.py:5-6, 30-31, 55, 58-62). These
  are foreign library calls and network I/O. The model gives only the text a
  handler would send, as `Reply` and the constant `Greeting`.
- Loading the token from the environment, the fatal `ValueError` when it is
  missing, and the logging setup (bot.py:10-19, 64, 71, 73). These are process
  I/O and configuration.
- The `asyncio.run(app.run_polling())` bootstrap and its exception handling
  (bot.py:66-74). This is event-loop plumbing.
- The contents of `KNOWLEDGE_BASE` (bot.py:7). The knowledge base is a
  parameter of every function.
- The Unicode case mapping of `str.lower` and the whitespace rules of
  `str.strip` (bot.py:23, 41). These are library behaviour. Both are
  parameters, and a lemma that needs a fact about them, such as
  `lower("") == ""`, states that fact as a `requires`.
- A message without text. The `filters.TEXT` handler filter (bot.py:62) never
  delivers one, so `Reply` takes the text as a plain string.
