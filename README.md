# RFP Response Generator — a verified model of its session logic

`bidWinner.py` is a Streamlit app that runs one workflow:

1. The user uploads an RFP and a company profile.
2. Claude extracts the requirements, and the user edits them.
3. The app authenticates to Gmail through a manual OAuth round trip and summarises RFP-related emails.
4. Claude generates a proposal, which the user edits and downloads as a base64 data link.

This project models the logic inside that workflow, with the outside services reduced to their outcomes. The modules are:

- `Text` (`text.dfy`): Python's `str.strip`, `str.split(sep)` and `sep.join` on strings.
- `Requirements` (`requirements.dfy`): the requirement-line parser, the staging of edits, and the requirements block sent to proposal generation.
- `AuthCode` (`authcode.dfy`): extraction of the authorization code from the pasted redirect URL.
- `GmailAuth` (`auth.dfy`): the `auth_step` machine of `gmail_authenticate`, one call per script run.
- `Inbox` (`inbox.dfy`): the subject lookup and the summary-building loop over the first five search results.
- `Base64` (`base64.dfy`): RFC 4648 section 4 encoding, with a strict decoder as its partner.
- `Download` (`download.dfy`): UTF-8 encoding of the proposal and the data-URL anchor.
- `AppSession` (`session.dfy`): the class `RfpSession`. Its fields are `requirements`, `proposal`, `gmailCreds`, `rfpUpdates` and `authStep`. It has one method per handler, and each method states the complete new state.

Whitespace follows ASCII `str.isspace`: characters 9–13 and 28–32.

Points of the code that the model keeps as written:

- **No inbox matches.** bidWinner.py:224-225 only shows a notice, so the updates of an earlier check stay in `rfp_updates` and on screen. `CheckForUpdates` keeps them.
- **Gate on "Check for RFP Updates".** bidWinner.py:217 tests only that `gmail_creds` is set, so the model gates on `gmailCreds.Some?`. bidWinner.py:142-144 and 211 can return a stored token that is neither valid nor refreshable, and l.215 stores it.
- **Numbering.** The extraction prompt asks for a numbered list, but the filter at bidWinner.py:102 is commented out. Every non-blank stripped line is kept (bidWinner.py:100).

## Model

| member | source | states |
|---|---|---|
| Text.Strip | bidWinner.py:100 | a stripped line, if non-empty, starts and ends with a non-whitespace character |
| Text.StripSlice | bidWinner.py:100 | `line.strip()` is the slice of the line between a whitespace prefix and a whitespace suffix |
| Text.StripStable | bidWinner.py:100 | stripping a line that has no whitespace at either end returns it unchanged |
| Text.FindIsFirst | bidWinner.py:191 | the search for a separator reports its first occurrence, or none when it occurs nowhere |
| Text.SplitPiecesFree | bidWinner.py:100 | no piece of `s.split(sep)` contains the separator |
| Text.SplitFirst | bidWinner.py:191 | `s.split(sep)[0]` is the prefix of `s` before the first separator, or all of `s` |
| Text.JoinSplit | bidWinner.py:100 | joining the pieces of a split with the same separator gives the original text back |
| Text.SplitJoin | bidWinner.py:252 | splitting a `'\n'`-join of lines without line breaks gives the lines back |
| Requirements.DropEmpty | bidWinner.py:100 | the comprehension's filter keeps only non-empty lines, each taken from the input, and never grows the list |
| Requirements.ParseRequirements | bidWinner.py:98-100 | every parsed requirement is non-empty, has no whitespace at either end and holds no `'\n'` |
| Requirements.ParseKeepsNonBlankLinesInOrder | bidWinner.py:100 | requirement k is the k-th non-blank line stripped; kept positions increase, and every line that is non-blank after stripping is kept |
| Requirements.ParseIdempotent | bidWinner.py:100 | parsing the `'\n'`-join of a parse result gives the same list |
| Requirements.ParseExample | bidWinner.py:100 | `"1. Foo\n\n2. Bar  \n"` parses to `["1. Foo", "2. Bar"]` |
| Requirements.StageEdits | bidWinner.py:119-122 | the staged list has one entry per requirement; entry i is what was typed in area i, or the stored requirement |
| AuthCode.ExtractCodeFails | bidWinner.py:191 | extraction fails (IndexError, caught at l.204-205) exactly when `code=` occurs nowhere in the URL |
| AuthCode.ExtractCodeSpec | bidWinner.py:191 | with the first `code=` at k, the result is the text right after it. That text holds no `&` and no start of a `code=`. It ends at the URL's end, at `&`, or at the next `code=` |
| AuthCode.CodeAtUnique | bidWinner.py:191 | the conditions above determine the code uniquely |
| AuthCode.ExtractCodeExample | bidWinner.py:191 | `https://x/?state=a&code=ABC123&scope=y` yields `ABC123` |
| GmailAuth.Authenticate | bidWinner.py:134-211 | the step never moves backwards and advances at most one step; it changes only in a run that ends with a rerun |
| GmailAuth.ValidTokenShortCircuits | bidWinner.py:143-146 | a valid stored token is returned as is, and the step is unchanged |
| GmailAuth.RefreshKeepsStep | bidWinner.py:149-153 | an expired token with a refresh token is refreshed without changing the step. A failed refresh raises |
| GmailAuth.StartAdvancesOnlyOnPress | bidWinner.py:156-174 | 'start' becomes 'get_code' exactly when the token does not settle the run, the start button is pressed and the client secrets load; otherwise it stays 'start' |
| GmailAuth.GetCodeAdvancesOnlyOnExchange | bidWinner.py:177-205 | 'get_code' becomes 'complete' exactly when the URL is non-empty, yields a code and the exchange succeeds. Any failure keeps 'get_code' and returns normally |
| GmailAuth.MissingCodeKeepsGetCode | bidWinner.py:188-205 | a pasted URL without `code=` leaves the step at 'get_code' |
| GmailAuth.CompleteIsFinal | bidWinner.py:207-209 | no run leaves 'complete' |
| GmailAuth.StepNeverRegresses | bidWinner.py:134-211 | over any sequence of runs the step never moves backwards |
| GmailAuth.CompleteNeedsExchange | bidWinner.py:188-201 | reaching 'complete' from an earlier step requires some run in which a code was extracted and exchanged |
| Inbox.SubjectOfFirst | bidWinner.py:233 | the subject is the value of the first header named exactly `Subject` |
| Inbox.SubjectOfDefault | bidWinner.py:233 | without a `Subject` header the subject is `No Subject` |
| Inbox.SubjectExample | bidWinner.py:233 | with two `Subject` headers the first one wins |
| Inbox.BuildUpdates | bidWinner.py:227-236 | fails exactly when one of the first min(n,5) fetches fails. Otherwise it yields min(n,5) summaries in service order, each `"Subject: " + subject + "\nPreview: " + snippet` |
| Base64.SextetChar | bidWinner.py:296 | every 6-bit value maps to a character of the RFC 4648 alphabet |
| Base64.SextetRoundTrip | bidWinner.py:296 | distinct values get distinct characters |
| Base64.CharRoundTrip | bidWinner.py:296 | every alphabet character stands for exactly one value |
| Base64.JoinSplitTriple | bidWinner.py:296 | cutting three bytes into four 6-bit groups loses no bits |
| Base64.SplitJoinQuad | bidWinner.py:296 | cutting four 6-bit groups into bytes loses no bits |
| Base64.EncodeLength | bidWinner.py:296 | the encoding of n bytes has 4·⌈n/3⌉ characters |
| Base64.EncodeWellFormed | bidWinner.py:296 | the encoding is alphabet characters followed by exactly (3 − n mod 3) mod 3 `=` |
| Base64.WellFormedChars | bidWinner.py:296 | well-formed base64 text holds only alphabet characters and `=` |
| Base64.DecodeEncode | bidWinner.py:296 | decoding the encoding gives the bytes back |
| Base64.EncodeDecode | bidWinner.py:296 | any text that decodes is the encoding of what it decodes to, so canonical base64 is unique |
| Base64.Rfc4648Vectors | bidWinner.py:296 | the RFC 4648 section 10 vectors for "", "f", "fo" and "foo" |
| Base64.Rfc4648VectorFoob | bidWinner.py:296 | `foob` encodes to `Zm9vYg==` |
| Base64.Rfc4648VectorFooba | bidWinner.py:296 | `fooba` encodes to `Zm9vYmE=` |
| Base64.Rfc4648VectorFoobar | bidWinner.py:296 | `foobar` encodes to `Zm9vYmFy` |
| Download.Utf8Char | bidWinner.py:296 | one character becomes 1 to 4 bytes, and a single byte exactly for ASCII |
| Download.Utf8 | bidWinner.py:296 | `str.encode()` yields between \|s\| and 4·\|s\| bytes |
| Download.Utf8Ascii | bidWinner.py:296 | ASCII text encodes one byte per character, each byte the character's code |
| Download.DownloadLinkLayout | bidWinner.py:297 | the link is the fixed anchor prefix, the payload and the fixed suffix, each readable back at its position |
| Download.PayloadShape | bidWinner.py:296-297 | the payload is well-formed base64 of 4·⌈n/3⌉ characters and holds no `"`, so the `href` attribute ends right after it |
| Download.PayloadDecodes | bidWinner.py:296 | the payload decodes to the proposal's UTF-8 bytes |
| Download.DownloadLinkExample | bidWinner.py:296-297 | the payload for the proposal `foobar` is `Zm9vYmFy` |
| AppSession.RfpSession.constructor | bidWinner.py:29-36 | a fresh session has no requirements, no proposal, no credentials, no updates, and step 'start' |
| AppSession.RfpSession.ExtractRequirements | bidWinner.py:39-108 | with both files uploaded and the button pressed, a reply replaces the requirements by its parsed lines. A failure or no press leaves them, and nothing else changes |
| AppSession.RfpSession.CommitRequirementEdits | bidWinner.py:115-127 | the count stays the same. On a press, position i holds area i's value; without a press nothing changes |
| AppSession.RfpSession.ConnectGmail | bidWinner.py:214-215 | on a press the step becomes the one the machine leaves. Credentials are stored only when the call returns; a rerun or an exception keeps the old ones |
| AppSession.RfpSession.CheckForUpdates | bidWinner.py:217-240 | gated on stored credentials and a press. Updates are replaced only on a non-empty, error-free run, by min(n,5) summaries in order. Zero matches and every failure keep the old updates. At most five updates are ever held |
| AppSession.RfpSession.GenerateProposal | bidWinner.py:249-284 | the service is called only when requirements are non-empty and the button is pressed, and its input is the `'\n'`-join of the requirements. A reply overwrites the proposal; a failure keeps it |
| AppSession.RfpSession.ProposalSection | bidWinner.py:287-298 | while a proposal exists, the edit applies at once. The download link is built from the edited text |

## Left out

- The Streamlit page, widgets, spinners, messages and the sidebar (bidWinner.py:21-26, 116, 130, 157-158, 178-185, 242-247, 288, 300-308) are not modelled. They are display only; presses and typed text are method parameters.
- The two Claude calls (bidWinner.py:53-96, 255-279) become a `Reply` value and a `string -> Reply` service parameter. The prompt texts are content, not logic, and are not modelled.
- The Gmail and OAuth library calls are not modelled: `build`, `list`, `get`, `InstalledAppFlow`, `authorization_url`, `fetch_token` and `refresh`. Messages are records of headers and a snippet; refresh, loading the client secrets and the code exchange are booleans in `AuthEnv`.
- The authorization URL and the `auth_flow` object kept in the session (bidWinner.py:136-137, 162-172, 180) are opaque library values and are not modelled.
- File I/O is not modelled: temporary PDF files and their cleanup (bidWinner.py:42-48, 109-112), and reading and writing `token.json` (bidWinner.py:143-153, 198-199, 209). A run sees the token file as an `Option<Credential>`. Malformed token files and failed token writes are not modelled.
- GmailAuth.Authenticate folds a failed write of `token.json` after a successful exchange into `exchangeOk = false`. In that case the code would return the flow's new credentials (bidWinner.py:195-199, 211), whereas the model returns the stored token.
- GmailAuth.Authenticate treats `st.experimental_rerun()` as ending the run (the `Rerun` outcome), so `gmail_creds` keeps its old value in that run. On Streamlit versions without `experimental_rerun` the call raises `AttributeError` instead. In the 'get_code' branch that error is raised inside the `try` of bidWinner.py:189 and caught at l.204, so the function returns `flow.credentials` (l.195, 211) and l.215 stores them. In the 'start' branch (l.173) it escapes uncaught. The model does not capture either behaviour: on such versions `gmail_creds` would change in a 'get_code' run where the model keeps it.
- GmailAuth.Authenticate takes the start press and the later "Connect to Gmail" press as independent parameters. In the app, the "Start Authentication Process" button (bidWinner.py:160) is drawn only in a run where "Connect to Gmail" (l.214) returned True. Clicking it starts a new run in which l.214 is False, so l.160-174 never run with a press. In the deployed app the move from 'start' to 'get_code' (`StartAdvancesOnlyOnPress`) therefore cannot happen. The model allows it and does not capture this consequence of Streamlit's button semantics.
- Text.Strip uses ASCII whitespace; Python's `str.strip` also removes non-ASCII Unicode whitespace, which is not modelled.
- `Base64.Decode` is a reference decoder for the proofs; the app itself never decodes.
- Download.Utf8: UTF-8 decoding and the injectivity of the encoder are not proved. Python strings can hold lone surrogates, and `.encode()` at bidWinner.py:296 raises on them without a handler. The model cannot represent such strings, because Dafny characters are Unicode scalar values, so that uncaught error is not modelled.
- A whole script run is not modelled as one step. Each handler is a method of its own, and the sections of one run are not composed in order.
