# Llama Guard safety checker: reply parser

The app sends a user prompt to the Llama Guard moderation model. It turns
the model's free-text reply into a verdict, either "Safe" or "Unsafe". An
unsafe reply also gets the list of MLCommons hazard categories whose codes
occur in it.

This project models three parts of `streamlit_app.py`:

- The fixed table of fourteen hazard codes S1 to S14 and their labels.
- The reply parser `parse_response`. It strips the reply and tests whether
  the stripped text starts with "safe" in any case. Otherwise it scans the
  table in order and collects `"<code>: <label>"` for every code that occurs
  in the stripped text as a case-sensitive substring.
- The check before dispatch. A blank API key is reported first, then a
  blank prompt; only when both are non-blank is the request sent.

Modules:

- `Text` (`text.dfy`) holds the Python string built-ins the parser uses:
  `str.strip()` as the two index scans CPython makes, `str.lower()`,
  `str.startswith()` and the substring test `p in t`.
- `Taxonomy` (`taxonomy.dfy`) holds the category table and the rendering of
  one entry.
- `ResponseParser` (`parser.dfy`) holds the parser. `Parse` is the
  specification function. `ParseResponse` is the imperative version with
  the early return and the appending loop, proved equal to `Parse`.
  `Flagged` specifies the loop's partial list. The lemmas prove the
  parser's properties from `Parse`.
- `Dispatch` (`dispatch.dfy`) holds the key and prompt check.

The Python dictionary is modelled as a sequence of (code, label) pairs in
insertion order, which is the order Python iterates a dictionary in. The
verdict strings "Safe" and "Unsafe" are a two-valued datatype. The pair the
parser returns is `Outcome(verdict, categories)`, where `None` stands for
Python's `None`.

`parse_response` only strips the reply, tests the "safe" prefix and scans
for codes as substrings; there is no token parsing and no third verdict.

## Model

| member | source | states |
|---|---|---|
| Taxonomy.SafetyCategories | streamlit_app.py:6-21 | the fourteen (code, label) pairs S1 "Violent Crimes" to S14 "Code Interpreter Abuse", in the dictionary's insertion order |
| Taxonomy.WellFormed | streamlit_app.py:6-21 | a table stands for a dictionary keyed by code: codes are non-empty, free of ':' and pairwise distinct |
| Taxonomy.SafetyCategoriesWellFormed | streamlit_app.py:6-21 | the table has exactly fourteen entries; their codes are non-empty, free of ':' and pairwise distinct, so the table is a dictionary keyed by code |
| Taxonomy.CodeDigits | streamlit_app.py:7-20 | the i-th code is "S" followed by the category number i+1 |
| Taxonomy.TwoDigitCodes | streamlit_app.py:7-20 | the codes S10 to S14 have three characters and begin with the code of S1 |
| Taxonomy.Entry | streamlit_app.py:36 | an entry is the code, then ": ", then the label |
| Taxonomy.EntryInjective | streamlit_app.py:36 | two entries are equal exactly when their categories are equal, for codes without ':' |
| Text.SkipLeadingSpace | streamlit_app.py:26 | the leading-whitespace scan of strip stops at the first non-whitespace character or at the end |
| Text.SkipTrailingSpace | streamlit_app.py:26 | the trailing-whitespace scan of strip stops after the last non-whitespace character, never passing the leading scan |
| Text.IsSpace | streamlit_app.py:26 | the whitespace characters of str.strip(): space, tab to carriage return and 0x1C to 0x1F; all of them are at most 32 |
| Text.Strip | streamlit_app.py:26 | the stripped text is empty exactly when the input is all whitespace; otherwise it starts and ends with a non-whitespace character |
| Text.StripCore | streamlit_app.py:26 | whenever a text splits into leading whitespace, a core and trailing whitespace, strip returns that core |
| Text.StripUnpadded | streamlit_app.py:26 | a non-empty text with no whitespace at either end is unchanged by strip |
| Text.StripPadding | streamlit_app.py:26 | adding whitespace at either end never changes the stripped text |
| Text.LowerChar | streamlit_app.py:28 | folds one character: the result is never an upper-case ASCII letter, and only A to Z change |
| Text.StartsWith | streamlit_app.py:28 | str.startswith(p) holds exactly when p is no longer than s and agrees with s at every index of p |
| Text.Lower | streamlit_app.py:28 | lower-casing keeps the length and leaves no upper-case ASCII letter |
| Text.OccursFrom | streamlit_app.py:35 | true exactly when the pattern occurs at some index from i on |
| Text.Contains | streamlit_app.py:35 | `p in t` holds exactly when p occurs in t at some index |
| Text.ContainsPrefix | streamlit_app.py:35 | a text containing p + q also contains p |
| Text.ContainsChar | streamlit_app.py:35 | every character of a contained pattern occurs in the text |
| ResponseParser.IsSafeReply | streamlit_app.py:28 | the test `response.lower().startswith("safe")` on the stripped reply; `SafeReplyIgnoresCase` proves it equal to a check of the first four characters in either case |
| ResponseParser.Flagged | streamlit_app.py:32-36 | the partial list after the first n categories: the entries, in table order, of those whose code occurs in the text; at most n of them |
| ResponseParser.Parse | streamlit_app.py:28-38 | the verdict is Safe exactly when no category list is returned |
| ResponseParser.ParseResponse | streamlit_app.py:24-38 | the method with the early return and the appending loop returns exactly what `Parse` specifies |
| ResponseParser.CollectCategories | streamlit_app.py:32-36 | the loop over the table builds the list of entries of the categories whose code occurs, in table order; the invariant ties the partial list to the keys scanned so far |
| ResponseParser.FlaggedSound | streamlit_app.py:34-36 | every collected entry is the entry of a scanned category whose code occurs in the text |
| ResponseParser.FlaggedComplete | streamlit_app.py:34-36 | the entry of every scanned category whose code occurs is collected |
| ResponseParser.FlaggedNothing | streamlit_app.py:32-36 | when no scanned code occurs, the list stays empty |
| ResponseParser.FlaggedNotYet | streamlit_app.py:34-36 | in a well-formed table, a category not yet scanned has no entry in the list so far |
| ResponseParser.FlaggedDistinct | streamlit_app.py:34-36 | a well-formed table never yields the same entry twice |
| ResponseParser.FlaggedTableOrder | streamlit_app.py:34-36 | the entry of an earlier table category sits at an earlier list position |
| ResponseParser.SafeReplyIgnoresCase | streamlit_app.py:28 | the verdict test holds exactly when the first four characters are s, a, f, e in either case |
| ResponseParser.ParseVerdict | streamlit_app.py:26-38 | the verdict is Safe exactly when the stripped reply begins with "safe" in any case; then the result is ("Safe", None), and every other reply is Unsafe with a list |
| ResponseParser.ParseSafeUpperCase | streamlit_app.py:28-29 | "SAFE" gives ("Safe", None) |
| ResponseParser.ParseSafePadded | streamlit_app.py:26-29 | "  safe\n" gives ("Safe", None) |
| ResponseParser.ParseSafeLongerWord | streamlit_app.py:28-29 | "safety" gives ("Safe", None) |
| ResponseParser.ParseUnsafeWord | streamlit_app.py:28-38 | a reply starting with "unsafe" in any case is Unsafe with a list |
| ResponseParser.NoCodeWithoutS | streamlit_app.py:34-35 | a text without the letter S contains none of the codes |
| ResponseParser.ParseBlank | streamlit_app.py:26-38 | an empty or all-whitespace reply is Unsafe with the empty list |
| ResponseParser.ParseLowerCaseCode | streamlit_app.py:34-36 | "unsafe s9" is Unsafe with the empty list, because codes match case-sensitively |
| ResponseParser.ParseCategoryIff | streamlit_app.py:34-36 | for an unsafe reply, a category's entry is listed exactly when its code occurs in the stripped reply |
| ResponseParser.ParseCategoriesFromTable | streamlit_app.py:34-36 | every listed item is code + ": " + label of a table category whose code occurs in the stripped reply |
| ResponseParser.ParseTableOrder | streamlit_app.py:34-36 | listed items follow table order S1, S2, ..., S14, whatever order the codes have in the reply |
| ResponseParser.ParseNineBeforeTen | streamlit_app.py:15-16 | the S9 item comes before the S10 item, so "flagged S10 and S9" lists S9 first |
| ResponseParser.ParseNoDuplicates | streamlit_app.py:34-36 | the list has at most fourteen items and no item twice |
| ResponseParser.ParseReportsViolentCrimes | streamlit_app.py:16-20 | an unsafe reply containing S10, S11, S12, S13 or S14 also lists "S1: Violent Crimes", because S1 is a prefix of those codes |
| ResponseParser.ParseIgnoresPadding | streamlit_app.py:26 | leading and trailing whitespace on the reply never changes the result |
| Dispatch.CheckInputs | streamlit_app.py:83-90 | a blank key gives the key error whatever the prompt; a blank prompt gives the prompt error exactly when the key is not blank; the client is built exactly when both are non-blank |
| Dispatch.CheckIgnoresPadding | streamlit_app.py:83-85 | whitespace around the key or the prompt never changes the decision |

## Left out

- The Streamlit page, sidebar, form and result display (streamlit_app.py:41-79, 107-116) are user interface on an external framework.
- Building the Groq client and the chat completion request (streamlit_app.py:88-102) are network calls into a library that is not part of this model. The model's reply is therefore a parameter of the parser.
- The exception handler and its display (streamlit_app.py:117-118) are interface error handling around the network call.
- Text.IsSpace: covers only the ASCII characters Python's `str.isspace()` accepts (space, tab to carriage return, and the separators 0x1C to 0x1F). Unicode whitespace such as U+00A0 or U+2028, which Python also strips, is not modelled.
- Text.Lower: folds only the ASCII letters A to Z. Python's full Unicode case mapping is not modelled; it can change a string's length.
- What happens after the gate passes is not modelled, so the gate returns only its decision. The prompt would be sent unstripped (streamlit_app.py:98).
