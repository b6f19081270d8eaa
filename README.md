# chat-with-db: the SQL query guard

The chat route of chat-with-db lets a language model run SQL on a SQLite
database through a `db` tool. Before a query runs it passes through
`guardRails`, the route's admission gate:

- the query is trimmed and lower-cased;
- it is rejected when any of seven keywords (`drop`, `delete`, `update`,
  `insert`, `alter`, `truncate`, `rename`) occurs in it as a plain
  substring;
- the verdict is a record `{isValid, errorMessage, fixSuggestion}`. A
  rejection carries two fixed messages. An admission carries two empty
  strings.

The `db` tool's handler returns the two messages when the query is rejected.
Otherwise it runs the raw query, as the model wrote it, and reports success.

The project has three modules:

- `JsString` (`js_string.dfy`) holds the JavaScript string operations the
  gate uses:
  - `trim`, with the exact ECMAScript set of whitespace and line-terminator
    code points;
  - `toLowerCase`, restricted to ASCII letters;
  - `includes`, computed offset by offset and proved equal to an existential
    reference definition, `Contains`.
- `QueryGuard` (`query_guard.dfy`) holds the verdict, the denylist,
  `GuardRails` and the properties of the gate. The main one is
  `GuardRailsRejectsMentions`: the gate rejects a query exactly when some
  keyword occurs in it, with letter case ignored. From it follow:
  - case-insensitivity;
  - indifference to surrounding whitespace;
  - substring (not token) matching;
  - monotonicity under added text;
  - a set of worked examples.
- `DbTool` (`db_tool.dfy`) holds the handler. It is a method on a `Database`
  object whose ghost field `executed` records the statements handed to
  `db.run`, in order.

Matching is by substring, and the model keeps it that way. `updated` and
`alternate` are rejected. A `PRAGMA` statement without a keyword is
admitted.

The constants of the model and the lines they come from:

- `JsString.IsSpace`: the code points `trim` removes at src/app/api/chat/route.ts:11, namely ECMAScript's WhiteSpace and LineTerminator sets.
- `QueryGuard.Forbidden`: the seven keywords, in the order of src/app/api/chat/route.ts:13-21.
- `QueryGuard.RejectMessage` and `QueryGuard.RejectFix`: the two rejection texts of src/app/api/chat/route.ts:28-29.
- `DbTool.SuccessMessage`: the confirmation of src/app/api/chat/route.ts:122.

## Model

| member | source | states |
|---|---|---|
| `JsString.TrimStart` | src/app/api/chat/route.ts:11 | The result is a suffix of the input. Everything cut off is whitespace. The result does not start with whitespace. |
| `JsString.TrimEnd` | src/app/api/chat/route.ts:11 | The result is a prefix of the input. Everything cut off is whitespace. The result does not end with whitespace. |
| `JsString.Trim` | src/app/api/chat/route.ts:11 | `trim()` leaves no whitespace at either end and never lengthens the string. |
| `JsString.TrimBounds` | src/app/api/chat/route.ts:11 | `trim(s)` is the slice `s[i..j]`, where `s[..i]` and `s[j..]` are all whitespace. |
| `JsString.TrimStartAppend` | src/app/api/chat/route.ts:11 | Trimming the front of `a + b` trims `a`, and also `b` when `a` is all whitespace. |
| `JsString.TrimEndAppend` | src/app/api/chat/route.ts:11 | Trimming the back of `a + b` trims `b`, and also `a` when `b` is all whitespace. |
| `JsString.TrimPadded` | src/app/api/chat/route.ts:11 | Whitespace added at either end of `s` does not change `trim(s)`. |
| `JsString.TrimKeepsWords` | src/app/api/chat/route.ts:11 | A word with no whitespace at its ends occurs in `trim(s)` if and only if it occurs in `s`. |
| `JsString.LowerChar` | src/app/api/chat/route.ts:11 | A capital `A`-`Z` becomes the small letter at the same place in the alphabet. Every other character is kept. The result is never a capital. |
| `JsString.LowerCharSpace` | src/app/api/chat/route.ts:11 | Lower-casing a character keeps it whitespace, or keeps it non-whitespace. |
| `JsString.Lower` | src/app/api/chat/route.ts:11 | `toLowerCase()` keeps the length and lower-cases each character in place. No upper-case letter is left. |
| `JsString.Upper` | src/app/api/chat/route.ts:11 | Upper-casing keeps the length and leaves no small letter `a`-`z`. Each character lower-cases to the same thing as the original. |
| `JsString.LowerAppend` | src/app/api/chat/route.ts:11 | Lower-casing distributes over concatenation. |
| `JsString.LowerUpper` | src/app/api/chat/route.ts:11 | An upper-cased string lower-cases to the lower-case form of the original. |
| `JsString.LowerTrimStart` | src/app/api/chat/route.ts:11 | Lower-casing commutes with trimming the front. |
| `JsString.LowerTrimEnd` | src/app/api/chat/route.ts:11 | Lower-casing commutes with trimming the back. |
| `JsString.LowerTrim` | src/app/api/chat/route.ts:11 | `trim().toLowerCase()` equals `toLowerCase().trim()`. |
| `JsString.Includes` | src/app/api/chat/route.ts:23 | `s.includes(k)` is true exactly when some offset of `s` starts a copy of `k` (`Contains`). |
| `JsString.ContainsExtend` | src/app/api/chat/route.ts:23 | An occurrence of `k` in `s` survives text added on either side. |
| `JsString.LowerKeepsLowerWords` | src/app/api/chat/route.ts:11-23 | A lower-case word that occurs in `s` still occurs in `s.toLowerCase()`. |
| `QueryGuard.Normalize` | src/app/api/chat/route.ts:11 | The normalised query has no upper-case letter, is no longer than the query, and equals `toLowerCase().trim()` of it. |
| `QueryGuard.IncludesAny` | src/app/api/chat/route.ts:23 | `keys.some(k => s.includes(k))` is true exactly when some key occurs in `s`. |
| `QueryGuard.GuardRails` | src/app/api/chat/route.ts:9-38 | `isValid` holds exactly when both messages are empty. `isValid` fails exactly when they are the two fixed rejection texts. |
| `QueryGuard.ForbiddenAreLowerWords` | src/app/api/chat/route.ts:13-21 | Each of the seven keywords is a non-empty run of lower-case ASCII letters. |
| `QueryGuard.ForbiddenWords` | src/app/api/chat/route.ts:13-21 | Each keyword is its own lower-case form and has no whitespace at its ends. |
| `QueryGuard.TrimKeepsKeyword` | src/app/api/chat/route.ts:11-23 | Trimming neither creates nor destroys an occurrence of a keyword. |
| `QueryGuard.GuardRailsRejectsMentions` | src/app/api/chat/route.ts:11-31 | A query is rejected if and only if it contains a keyword with letter case ignored, wherever the keyword stands. |
| `QueryGuard.NoMentionAdmitted` | src/app/api/chat/route.ts:33-37 | A query that contains no keyword, in any case, is admitted with two empty messages. |
| `QueryGuard.CaseInsensitive` | src/app/api/chat/route.ts:11-23 | Two queries with the same lower-case form get the same verdict. |
| `QueryGuard.UpperCaseSameVerdict` | src/app/api/chat/route.ts:11-23 | A query and its upper-cased form get the same verdict. |
| `QueryGuard.WhitespaceIgnored` | src/app/api/chat/route.ts:11 | `GuardRails(ws1 + q + ws2) == GuardRails(q)` for whitespace `ws1` and `ws2`. |
| `QueryGuard.EmbeddedKeywordRejected` | src/app/api/chat/route.ts:23-31 | Any text containing a keyword, even inside a longer word or literal, is rejected. |
| `QueryGuard.RejectionMonotone` | src/app/api/chat/route.ts:23-31 | A rejected query stays rejected when text is added before or after it. |
| `QueryGuard.AdmittedWithoutKeywordLetters` | src/app/api/chat/route.ts:13-37 | A query with none of the letters d, u, n, l (either case) is admitted, since every keyword contains one of them. |
| `QueryGuard.DropRejected` | src/app/api/chat/route.ts:14-31 | `drop table x` is rejected. |
| `QueryGuard.DropRejectedAnyCase` | src/app/api/chat/route.ts:11-31 | `DROP TABLE x` and `Drop Table x` are rejected. |
| `QueryGuard.UpdatedLiteralRejected` | src/app/api/chat/route.ts:16-31 | `select * from logs where action = 'updated'` is rejected: a false positive the gate keeps. |
| `QueryGuard.AlternateRejected` | src/app/api/chat/route.ts:18-31 | `select alternate from products` is rejected. |
| `QueryGuard.DeleteRejected` | src/app/api/chat/route.ts:15-31 | `delete from products` is rejected. |
| `QueryGuard.PaddedDeleteRejected` | src/app/api/chat/route.ts:11-31 | `   delete from products   ` is rejected. |
| `QueryGuard.PragmaAdmitted` | src/app/api/chat/route.ts:23-37 | `PRAGMA page_size` is admitted with empty messages: statement structure is never inspected. |
| `DbTool.Database.Run` | src/app/api/chat/route.ts:120 | `db.run(sql)` appends exactly `sql` to the log of executed statements. |
| `DbTool.HandleDbTool` | src/app/api/chat/route.ts:110-124 | A rejected query returns the verdict's two messages and executes nothing. An admitted query is executed once, verbatim, and the answer is `Query executed successfully.` |

## Left out

- Unicode case mapping: `toLowerCase` is modelled on ASCII letters only. The verdict is still the same as with full Unicode lower-casing:
  - Only two non-ASCII characters lower-case to ASCII letters: KELVIN SIGN gives `k`, and LATIN CAPITAL LETTER I WITH DOT ABOVE gives `i` followed by U+0307.
  - No keyword contains `k`.
  - The `i` from U+0130 is always followed by U+0307. In every keyword an `i` is followed by a letter (`insert`) or does not occur.
  - Unicode also lower-cases non-ASCII letters to other non-ASCII characters, which can never match an ASCII keyword.
- `trim` is modelled exactly on the code points ECMAScript treats as whitespace. The string is a sequence of code points, not UTF-16 units, which makes no difference to the gate.
- `db.run` is reduced to a ghost log of executed statements. SQLite's execution, its result rows (which the handler discards anyway) and its failures (a malformed statement or a constraint violation makes `execute` throw) are not modelled.
- The asynchrony of `execute` (`async`/`await`) and `console.log(query)` are not modelled.
- The rest of the route is third-party glue and is not part of this model: `POST` and `req.json`, `streamText` and the model call, the system prompt, `stopWhen`, `maxDuration`, `toUIMessageStreamResponse`. So is the `schema` tool, which returns a constant string.
- The chat UI in src/app/page.tsx and the seed script in db/db.seed.ts are not part of this model.
- The long pass-through query `select name, price from products where category = 'Electronics'` has no worked example. `NoMentionAdmitted` covers it in general, and `PragmaAdmitted` is a concrete admitted query.
- `DbTool.HandleDbTool` states its effect per call. That the log only ever holds admitted queries across a sequence of calls follows by induction from its postcondition but is not stated as a separate invariant.
- `JsString.Trim` states only that no whitespace is left at the ends. Where the cuts fall is stated by `JsString.TrimBounds`.
- The admission property is stated on the lower-cased query (`NoMentionAdmitted`), as the code lower-cases before matching. A literal reading of "contains none of the keywords as a substring" would wrongly admit `DROP TABLE x`.
