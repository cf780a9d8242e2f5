# BMI Health Advisor — a Dafny model

The BMI Health Advisor is a one-page Streamlit app (`app.py`). Its user
enters a weight in kilograms and a height in centimetres and presses
"Calculate BMI". The page then:

- computes the body-mass index;
- classifies it as Underweight, Normal or Overweight;
- sends a fixed advice request for that category to a chat service;
- shows the reply as a markdown bullet list, or a warning when something went wrong.

This project models the deterministic logic behind that page and proves
its properties. There are four modules:

- `Text` (`text.dfy`): Python's `str.split` with a one-character
  separator, `str.join` and `str.strip()` over `string`. Whitespace is
  Python's full `str.isspace()` set.
- `Advice` (`advice.dfy`): `get_openrouter_advice`. The HTTP exchange is a
  value, `HttpOutcome`. The module covers how the reply text becomes
  bullets and which message each outcome yields.
- `Bmi` (`bmi.dfy`): the index, its three-way category, the status label
  and the advice request. Arithmetic is exact (`real`).
- `Page` (`page.dfy`): the button handler. It puts the height check,
  the classification and the advice message together. The chat service
  is a function parameter.

## Model

| member | source | states |
|---|---|---|
| Text.IsSpaceExamples | app.py:33 | the whitespace `strip()` removes includes C's six whitespace characters, the no-break space and the ideographic space, and excludes the zero-width space, the byte-order mark, the Mongolian vowel separator, letters and "-" |
| Text.Strip | app.py:33 | `line.strip()` is no longer than the line, and when it is not empty it neither starts nor ends with whitespace |
| Text.StripIsStripOf | app.py:33 | the stripped line is a middle cut of the line: what is cut off before and after it is all whitespace |
| Text.StripUnique | app.py:33 | any cut with blank ends whose result has no whitespace at either end is exactly `strip()`'s result, so `strip()` is fully determined by that description |
| Text.StripEmptyIffBlank | app.py:33 | the filter `if line.strip()` drops a line exactly when every character of it is whitespace |
| Text.StripTrimmed | app.py:33 | a line with no whitespace at either end is kept unchanged |
| Text.StripIdempotent | app.py:33 | stripping an already stripped line changes nothing |
| Text.StripKeepsOnlyInputChars | app.py:33 | a character that is not in the line is not in the stripped line |
| Text.Split | app.py:32 | `split("\n")` always gives at least one piece, and no piece holds the separator |
| Text.Join | app.py:34 | `sep.join(parts)` of at least one part starts with the first part; `JoinSplit` and `SplitJoin` relate it to `split` |
| Text.JoinSplit | app.py:32 | joining the pieces of a split with the separator gives back the text |
| Text.SplitJoin | app.py:32-34 | splitting the join of at least one separator-free part gives back exactly those parts |
| Text.JoinBlank | app.py:32-33 | a text is all whitespace exactly when each of its lines is |
| Advice.ConciseLines | app.py:33 | the comprehension keeps at most as many items as there are lines, and every item is non-empty with no whitespace at either end |
| Advice.NonBlankIndicesComplete | app.py:33 | the reference list of positions holds a line's position exactly when that line has a non-whitespace character |
| Advice.NonBlankIndicesIncreasing | app.py:33 | that reference list is strictly increasing, so it lists the non-blank lines in input order |
| Advice.ConciseLinesFollowInput | app.py:32-33 | item k is the stripped k-th non-blank line: the items follow the input order with one item per non-blank line |
| Advice.ConciseLinesCount | app.py:32-33 | the number of items equals the number of lines holding some non-whitespace character |
| Advice.ConciseLinesKeepOnlyInputChars | app.py:33 | no item holds a character that no line holds |
| Advice.AdviceItems | app.py:32-33 | every bullet item of a reply is non-empty, has no whitespace at either end and holds no newline |
| Advice.NoItemsIffBlank | app.py:31-33 | a reply yields no items exactly when it is all whitespace |
| Advice.FormatAdvice | app.py:34 | the advice text always begins with "\n- " |
| Advice.FormatAdviceBlank | app.py:34 | the advice text is exactly "\n- " when, and only when, the reply is all whitespace (the empty reply, "\n  \n", ...) |
| Advice.FormatAdviceLines | app.py:32-34 | splitting the advice text on "\n" gives "" and then "- " + item for each item in order; a reply with no items gives the single line "- " |
| Advice.JoinWithBullets | app.py:34 | joining items with "\n- " after a leading "- " is joining their "- item" lines with "\n" |
| Advice.ConciseExampleLines | app.py:33 | the lines "A", "", "B", "" become the items "A", "B" |
| Advice.ExampleReplyLines | app.py:32 | "A\n\nB\n" splits into "A", "", "B", "" |
| Advice.FormatAdviceExample | app.py:31-34 | the reply "A\n\nB\n" is shown as "\n- A\n- B": blank and trailing lines give no bullet |
| Advice.AdviceMessage | app.py:25-41 | the kind of the returned message, read back from its text alone, is the kind of the outcome: formatted advice for readable content, the invalid-advice warning without `choices`, the request-failure warning for HTTP library failures, and the generic error warning otherwise (an empty or malformed `choices` list included); no message is unrecognisable |
| Advice.InvalidResponseKind | app.py:36 | the invalid-advice warning is read back as an invalid response |
| Advice.RequestFailureKind | app.py:39 | "⚠️ API request failed: " followed by any text is read back as a request failure, never as advice or the invalid-advice warning |
| Advice.UnexpectedErrorKind | app.py:41 | "⚠️ An error occurred: " followed by any text is read back as an unexpected error, never as any other kind |
| Advice.NoChoicesMessage | app.py:30-36 | a payload without `choices` yields exactly "⚠️ Unable to fetch valid advice from the response." |
| Advice.RequestFailedMessage | app.py:38-39 | an HTTP library failure yields "⚠️ API request failed: " followed by exactly the failure's text |
| Advice.EmptyChoicesMessage | app.py:30-41 | an empty `choices` list yields "⚠️ An error occurred: list index out of range", a generic error and not the invalid-advice warning |
| Bmi.BodyMassIndex | app.py:53-54 | the index times the height in cm squared is the weight times 10000, and it is positive when the weight is |
| Bmi.Classify | app.py:58-66 | Underweight exactly below 18.5, Normal exactly on [18.5, 24.9], Overweight exactly above 24.9: every value gets exactly one category |
| Bmi.ClassifyBoundaries | app.py:58-66 | 18.49 is Underweight, 18.5 and 24.9 are Normal, and 24.91 and 24.95 are Overweight |
| Bmi.ClassifyMonotone | app.py:58-66 | a larger index never gives a lower category (Underweight < Normal < Overweight) |
| Bmi.Status | app.py:59-65 | the three status labels have three different lengths, so each label names one category |
| Bmi.Query | app.py:60-66 | the three advice requests have three different lengths (87, 74 and 86 characters), so each request names one category |
| Bmi.QueryIdentifiesCategory | app.py:58-66 | different categories send different advice requests |
| Bmi.StatusIdentifiesCategory | app.py:58-66 | different categories show different status labels |
| Page.CalculateBmi | app.py:51-73 | the height warning is shown exactly when the height is not positive; otherwise the index is `BodyMassIndex` of the weight and height (so it times the height squared is the weight times 10000, and it is positive when the weight is), the status and the request are those of its category, and the advice is the message for the service's answer to that request |
| Page.InvalidHeightSendsNothing | app.py:52-73 | with a height that is not positive, the page is the warning "Please enter a valid height." whatever the service would answer, so no request matters |
| Page.StatusMatchesQuery | app.py:58-66 | two assessments show the same status exactly when they send the same request |
| Page.HeavierNeverLowerCategory | app.py:52-66 | at the same height, a heavier weight never gets a lower category |

## Left out

- The Streamlit calls (`set_page_config`, `markdown`, `success`, `warning`, `button`, `number_input`) are presentation only. The widget ranges for weight (10–300) and height (50–250) are input clamps, not logic. The model accepts any real weight and height, and refuses only a height that is not positive, as the code does.
- The HTTP request itself (headers, model name, message list, `requests.post`, `raise_for_status`, `response.json()`) is I/O through a foreign library. Its result is the `HttpOutcome` value. `RequestFailed` stands for every `requests` exception, and `OtherFailure` for every other exception, each with the text `str(e)` would give.
- A JSON payload that is not an object is not modelled separately. Whatever `"choices" in result` would raise or answer for it is covered by `OtherFailure` or `Received`.
- A `choices` value that is not a list (`null`, an object, a string) raises while `[0]` is taken or while the choice is read, for example `TypeError`, `KeyError: 0` shown as "0", or "string index out of range". Each such case reaches the generic handler at app.py:40-41, and the model covers it as `OtherFailure(e)` or `Received(Some([Unreadable(e)]))` with that text.
- How the first choice is read (`["message"]["content"]` and `.split`) is a `Choice` value: readable text, or the text of the exception raised while reading it.
- The API key loaded from `st.secrets` is configuration.
- Bmi.BodyMassIndex: uses exact real arithmetic, not IEEE doubles. Results within rounding distance of 18.5 or 24.9 may classify differently in the running app. The `:.2f` display of the index is not modelled.
- The chat service's answer is the `fetch` parameter of `Page.CalculateBmi`. Nothing is assumed about it.
- A Python `str` can hold lone surrogates (U+D800–U+DFFF), for example from the JSON escape `"\ud800"`, but a Dafny `char` cannot, so such replies have no `string` here. `strip()` and `split` treat such a character like any other non-whitespace character, so none of the properties would change.
- Voice input and output are commented out in the source and are not modelled.
