# gm-connect mail reader, modelled in Dafny

gm-connect is a small mail client library for Gmail. Its reading side, `EmailReader`, holds at
most one IMAP4rev1 connection (RFC 3501). It lists folders and fetches the most recent messages
of a folder as summaries. It deletes one message, deletes many at once by age and sender, and
moves a message to another folder. `EmailManager` is the facade an application uses: it
forwards each call to its reader. `Config.load` assembles the account settings from the
environment, an optional `.env` file and an optional JSON file.

This project models those three pieces:

- `Imap` (imap.dfy): the IMAP side. The commands the reader sends form a `Command` datatype. A
  `Connection` object records every command sent over it, in order, in its `trace`. Server
  replies are not computed: the methods take them as inputs. These are the LIST reply, the
  UID SEARCH reply, the status of COPY, and a function giving the UID FETCH reply of each
  identifier.
- `Catalog` (catalog.dfy) and `Batching` (batching.dfy): the value-level meaning of the reader's
  operations.
  - `Catalog` gives the folder name of a LIST line, the identifiers `fetch_emails` visits and
    their order, the snippet kept of a body, and the summaries gathered.
  - `Batching` gives the SEARCH keys of a bulk deletion, the cutting of the matched identifiers
    into batches, the STORE and EXPUNGE commands for each batch, and the reported outcome.
- `Reader` (reader.dfy): the `EmailReader` class with a nullable `conn` field. Each method is
  proved to leave exactly the specified commands on the connection's trace and to return what
  the `Catalog` and `Batching` functions say. The class keeps an invariant, `Valid`: a
  connection it holds began with LOGIN under the reader's own credentials and has not been
  sent LOGOUT. So no LIST, SELECT, SEARCH or FETCH is ever sent outside a logged-in session.
  The loops of `fetch_emails` and `bulk_delete` are `while` loops with invariants, in
  `FetchEach` and `DeleteBatches`.
- `Manager` (manager.dfy): the `EmailManager` class. Each of its methods promises what the
  reader's method promises, and keeps the reader's invariant. The batch size of a bulk
  deletion is fixed at 50.
- `Config` (config.dfy) and `Values` (values.dfy): `Config.load` as a method. It builds the
  settings map key by key from the environment and the `.env` variables, merges the JSON
  document only when the address or the password is missing, and fails when either is still
  missing. `Values` holds the values of the settings map and their Python truthiness.
- `Text` (text.dfy): the Python string operations the code relies on. Contracts and lemmas
  state what each one computes; `sep.join` is stated through its round trips with `split`.
  - `str.strip`, `bytes.split()`, `str.split(sep)` and `sep.join`;
  - the `[:n]` and `[start:]` slices and `reversed`;
  - `int(text)` and the decimal text of a count.

Two kinds of message addressing are kept apart, as in the code:

- `delete_email` and `move_email` send STORE and COPY. These address messages by **sequence
  number**, so the model issues `Store` and `Copy` with the caller's argument.
- `fetch_emails` returns **unique identifiers**, and `bulk_delete` uses `UID STORE`.

So passing an identifier from `fetch_emails` to `delete_email` or `move_email` names whichever
message has that sequence number. The model records the commands as written and does not
merge the two kinds.

Two details of the code that the model keeps:

- A folder name is the last piece of `line.split(' "/" ')`; when occurrences of the delimiter
  overlap this differs from the text after its last occurrence. `Catalog.FolderNameOverlap`
  shows a line where the two differ.
- `bulk_delete` connects and selects before it checks the criteria
  (src/gm_connect/reader.py:125-139). With no criteria, the trace therefore holds LOGIN and
  SELECT but no search.

## Model

| member | source | states |
|---|---|---|
| Text.Strip | src/gm_connect/reader.py:93 | `str.strip()`: the result is a slice of the input, and everything cut off at either end is whitespace. It neither starts nor ends with whitespace and is no longer than the input. |
| Text.StripStart | src/gm_connect/reader.py:93 | The leading half of `strip`: a suffix of the input, with everything cut off whitespace and the first character not whitespace. |
| Text.StripEnd | src/gm_connect/reader.py:93 | The trailing half of `strip`: a prefix of the input, with everything cut off whitespace and the last character not whitespace. |
| Text.StripPadded | src/gm_connect/reader.py:93 | Whitespace around a text that neither starts nor ends with whitespace is exactly what `strip` removes. |
| Text.Take | src/gm_connect/reader.py:83-86 | `s[:n]`: the first `min(n, len(s))` characters of `s`. |
| Text.StripOfPrefix | src/gm_connect/reader.py:83-93 | Stripping a prefix `text[:n]` gives a slice of `text` itself, starting after the prefix's leading whitespace. |
| Text.SliceFrom | src/gm_connect/reader.py:60 | `s[start:]`: for `start >= 0`, the elements from `min(start, n)` on; for a negative start, the last `min(-start, n)` elements. |
| Text.Reversed | src/gm_connect/reader.py:63 | `reversed`: same length, and element `k` is element `n-1-k` of the input. |
| Text.Words | src/gm_connect/reader.py:59 | `bytes.split()`: every token is non-empty and free of ASCII whitespace. Which tokens they are is stated by `Text.WordsExactly`. |
| Text.WordsExactly | src/gm_connect/reader.py:59 | `bytes.split()` characterised in both directions: `ws` is the token list of `s` exactly when every token is non-empty and free of ASCII whitespace, and `s` is the tokens interleaved with all-whitespace gaps, every gap between two tokens being non-empty. |
| Text.WordsWoven | src/gm_connect/reader.py:59 | Every text is its tokens interleaved with whitespace gaps that separate them; the first gap is the text's leading whitespace. |
| Text.WordsOfWeave | src/gm_connect/reader.py:59 | Tokens interleaved with separating whitespace gaps split back into exactly those tokens. |
| Text.WordsOfGapWordRest | src/gm_connect/reader.py:59 | Whitespace, then a token, then nothing or whitespace: that token comes first, followed by the tokens of the rest. |
| Text.WordsOfWordThen | src/gm_connect/reader.py:59 | A token followed by nothing or by whitespace is the first token of the split. |
| Text.WordsAfterBlanks | src/gm_connect/reader.py:59 | Any run of ASCII whitespace in front of a text does not change its tokens. |
| Text.WordsOfJoin | src/gm_connect/reader.py:146 | A line of tokens joined by single spaces splits back into exactly those tokens. |
| Text.FindFrom | src/gm_connect/reader.py:38 | `s.find(sep, from)`: the found index is an occurrence of `sep` at or after `from`. |
| Text.FindFromFirst | src/gm_connect/reader.py:38 | The found occurrence is the leftmost: none starts between `from` and it, and none starts at or after `from` when nothing is found. |
| Text.MatchesFromSlice | src/gm_connect/reader.py:38 | Comparing `sep` with `s` character by character from an index agrees with comparing the slice of `s` there with `sep`. |
| Text.Split | src/gm_connect/reader.py:38 | `str.split(sep)` gives at least one part. |
| Text.SplitJoinsBack | src/gm_connect/reader.py:38 | Joining the parts of `s.split(sep)` with `sep` gives `s` back. |
| Text.SplitPartsFree | src/gm_connect/reader.py:38 | No part of a split contains the separator. |
| Text.SplitCutsLeftmost | src/gm_connect/reader.py:38 | Every cut is made at the leftmost occurrence: for each part but the last, the first occurrence of `sep` in the part followed by `sep` is that separator. With the two lemmas above this fixes the parts uniquely, so overlapping occurrences are cut as Python cuts them. |
| Text.LastCutEnd | src/gm_connect/reader.py:38 | Where the last piece starts when `s` is scanned from the left, jumping past each leftmost occurrence of `sep` in turn: a position within `s`. |
| Text.LastCutEndSep | src/gm_connect/reader.py:38 | That position is 0, or right after an occurrence of `sep`. |
| Text.SplitLast | src/gm_connect/reader.py:38 | The last part of a split is the text from that position on. |
| Text.JoinLast | src/gm_connect/reader.py:141 | With two or more parts, the joined text is the join of all parts but the last, then the separator, then the last part. |
| Text.SplitJoin | src/gm_connect/reader.py:152 | For a one-character separator that no part contains, splitting the joined text gives the parts back. |
| Text.NatToString | src/gm_connect/reader.py:157 | The decimal text of a count is non-empty and all digits, with no leading zero except for 0 itself. |
| Text.DigitsValueOfNatToString | src/gm_connect/reader.py:157 | The digits of a count's decimal text have the count as their value. |
| Text.ParseIntPadded | src/gm_connect/config.py:34-36 | `int` accepts an integer literal (an optional sign, then one or more ASCII digits) with any whitespace `int` skips around it, and gives the literal's value. That whitespace is what `str.isspace` counts, except the information separators U+001C to U+001F. |
| Text.ParseIntAccepted | src/gm_connect/config.py:34-36 | Whatever `int` accepts is leading whitespace it skips, an integer literal and trailing whitespace it skips, and the result is the literal's value. |
| Text.ParseIntRejected | src/gm_connect/config.py:34-36 | When `int` rejects a text, no way of writing it as skipped whitespace, a middle part and skipped whitespace has an integer literal in the middle. |
| Text.ParseIntInfoSeparator | src/gm_connect/config.py:34 | `strip` cuts a leading U+001C off `"\x1c7"`, yet `int` rejects that text: the whitespace `int` skips is narrower than `str.isspace`. |
| Text.ParseIntOfNatToString | src/gm_connect/config.py:36 | `int(str(n)) == n` for every count `n`: formatting and parsing are inverses. |
| Catalog.FolderName | src/gm_connect/reader.py:38 | The folder name of a LIST line is the text after the last cut of the scan that jumps past each leftmost `' "/" '` in turn, i.e. the last piece of the split. It is a suffix of the line without the delimiter; the whole line when the delimiter is absent, and otherwise preceded by the delimiter. |
| Catalog.FolderNameAfterFirst | src/gm_connect/reader.py:38 | Cutting the line just after its first delimiter does not change the folder name. |
| Catalog.FolderNameOverlap | src/gm_connect/reader.py:38 | For the line ` "/" "/" `, whose delimiters overlap, the folder name is `"/" `, the split's last piece, and not the empty text after the last occurrence. |
| Catalog.Latest | src/gm_connect/reader.py:60 | `uids[-limit:]`: for `limit >= 1`, the last `min(limit, n)` identifiers; for `limit == 0`, all of them; for a negative limit, all but the first `-limit`. |
| Catalog.Walk | src/gm_connect/reader.py:59-63 | The visiting order of `fetch_emails`: `min(limit, n)` identifiers for `limit >= 1`, all of them for `limit == 0`, and the `k`-th visited is the `k`-th from the end of the search reply. |
| Catalog.FetchCommands | src/gm_connect/reader.py:63-64 | One `UID FETCH <uid> (RFC822)` per visited identifier, in visiting order. |
| Catalog.FirstPlainPart | src/gm_connect/reader.py:80-84 | The index found is that of a `text/plain` part, and no earlier part is `text/plain`. None means that no part is. |
| Catalog.BodyText | src/gm_connect/reader.py:79-86 | The text of a single-part body is its payload. For a multipart body it is the payload of the first `text/plain` part in walk order, and empty when no part is `text/plain`. |
| Catalog.Snippet | src/gm_connect/reader.py:78-93 | A snippet is at most 200 characters and neither starts nor ends with whitespace. |
| Catalog.SnippetCut | src/gm_connect/reader.py:83-93 | A snippet is a slice of the first 200 characters of the body text, and only whitespace is cut off on each side of it. |
| Catalog.Summarize | src/gm_connect/reader.py:88-94 | One entry: the identifier, the subject, From and Date of the message, and a snippet of at most 200 characters, its body text cut to 200 characters and then stripped. |
| Catalog.Collect | src/gm_connect/reader.py:62-96 | No more summaries than visited identifiers; when the last visited fetch succeeds, the last summary is for it. |
| Catalog.CollectStep | src/gm_connect/reader.py:63-94 | Visiting one more identifier adds its fetch command, and adds its summary exactly when the fetch succeeds. |
| Catalog.FetchDone | src/gm_connect/reader.py:63-94 | After one more turn of the fetch loop, the trace holds the FETCH commands of one more visited identifier, and the summaries are those of the longer prefix. |
| Catalog.UidsOf | src/gm_connect/reader.py:89 | The identifiers of the summaries, one per summary and in order. |
| Catalog.CollectSummaries | src/gm_connect/reader.py:63-94 | Every summary gathered comes from an OK fetch of its own identifier and is built from the fetched message. |
| Catalog.CollectUids | src/gm_connect/reader.py:63-89 | The identifiers of the summaries form a subsequence of the visiting order. Every visited identifier whose fetch succeeded is among them. |
| Catalog.CollectSpec | src/gm_connect/reader.py:62-96 | The summaries are, in order, those of the successful fetches: a subsequence of the walk, no longer than the walk, built from the fetched messages, and missing no successful fetch. |
| Catalog.CollectFrom | src/gm_connect/reader.py:59-96 | For a walk over exactly the members of a pool, each summary belongs to a pool member with an OK fetch. Every such member has a summary. |
| Catalog.RecentEmails | src/gm_connect/reader.py:59-96 | For `limit >= 1`, `fetch_emails` returns at most `min(limit, n)` summaries, each for one of `uids[-limit:]` with an OK fetch, and one for every such identifier whose fetch succeeded. |
| Imap.QuotedMailbox | src/gm_connect/reader.py:126 | The SELECT argument of a bulk deletion is `INBOX` bare for `"INBOX"`; any other name is placed between double quotes unchanged. |
| Imap.SessionExtend | src/gm_connect/reader.py:26-38 | Sending commands other than LOGOUT keeps a session open: the trace still begins with the LOGIN and holds no LOGOUT. |
| Batching.SearchKeys | src/gm_connect/reader.py:129-136 | The keys are `BEFORE <date>` (for any given age, zero included) followed by `FROM "<sender>"` (for a non-empty sender). There are none exactly when neither is given. |
| Batching.BatchesFromSpec | src/gm_connect/reader.py:150-151 | The slices `uids[i:i+size]` from `start` on, laid end to end, are `uids[start:]`. There are `ceil((n - start) / size)` of them; each is non-empty and at most `size`, and all but the last are exactly `size`. |
| Batching.Batches | src/gm_connect/reader.py:150-151 | The batches cover the matched identifiers exactly once, in order, in `ceil(n / size)` non-empty slices of `size`, except that the last may be shorter. |
| Batching.BatchMembers | src/gm_connect/reader.py:151 | Every batch is non-empty and holds only matched identifiers. |
| Batching.UidSetReadsBack | src/gm_connect/reader.py:152 | For a non-empty batch whose identifiers hold no comma, splitting the comma-joined set at commas gives the batch back. |
| Batching.BatchCommands | src/gm_connect/reader.py:150-154 | Two commands per batch. |
| Batching.BatchCommandsShape | src/gm_connect/reader.py:150-154 | Two commands per batch, in batch order: `UID STORE <set> +FLAGS (\Deleted)` on the batch's comma-joined set, immediately followed by EXPUNGE. |
| Batching.BatchCommandsStayLoggedIn | src/gm_connect/reader.py:150-154 | No deletion command is a LOGOUT. |
| Batching.BatchCommandsFrom | src/gm_connect/reader.py:150-154 | The commands from batch `start` on are the STORE and EXPUNGE of the slice `uids[start:start+size]`, followed by those of the remaining batches. |
| Batching.BatchDone | src/gm_connect/reader.py:150-154 | Once the STORE and EXPUNGE of the batch at `start` are sent, what remains to send is the commands of the batches after it. |
| Batching.UidSetsReadBack | src/gm_connect/reader.py:150-153 | When no identifier contains a comma, each batch's UID set splits back into that batch, so the STOREs together flag every matched identifier exactly once. |
| Batching.BulkOutcome.Report | src/gm_connect/reader.py:138-157 | Its first character tells the three reports apart: the warning sign only for no criteria, the check mark only for a deletion. A deletion's report holds a piece that `int` reads back as the count. |
| Batching.ReportsDistinct | src/gm_connect/reader.py:138-157 | Different outcomes give different reports: the report determines the outcome, count included. |
| Batching.BulkCommands | src/gm_connect/reader.py:138-157 | Without criteria there is no command after SELECT. Otherwise the first is UID SEARCH with the keys joined by spaces, and without matches it is the only one. |
| Batching.BulkCommandsStayLoggedIn | src/gm_connect/reader.py:141-154 | No command of a bulk deletion after its SELECT is a LOGOUT. |
| Batching.BulkDeletion | src/gm_connect/reader.py:143-157 | With criteria and matches, the search is followed by a STORE then an EXPUNGE for each batch of the `n` matched identifiers, in batch order, and the count reported is `n`. |
| Batching.BulkOutcomeOf | src/gm_connect/reader.py:138-157 | No criteria exactly when there are no keys. No matches exactly when the search failed or its reply line is empty. Otherwise a deletion of as many identifiers as the reply line holds. |
| Values.Falsy | src/gm_connect/config.py:39 | Python truthiness: only `None`, `False`, zero, the empty string and an empty array or object are false. |
| Config.Variables | src/gm_connect/config.py:27-28 | The `.env` file adds variables but never overrides one already in the environment. |
| Config.Getenv | src/gm_connect/config.py:31-32 | `os.getenv`: `None` exactly when the variable is unset, its text otherwise, and truthy exactly when the variable is set and not empty. |
| Config.Port | src/gm_connect/config.py:34-36 | `int(os.getenv(name, default))`: the default when the variable is unset, otherwise `int` of its text, which `Text.ParseIntPadded` and its companions characterise. |
| Config.EnvSettings | src/gm_connect/config.py:31-36 | The six keys are filled from the environment: host defaults `smtp.gmail.com` and `imap.gmail.com`, port defaults 465 and 993, and a set port variable gives `int` of its text. The credentials are set exactly when both variables are non-empty. |
| Config.Load | src/gm_connect/config.py:17-52 | A port that `int` rejects fails the load. Credentials from the environment give the environment settings as they are. Otherwise the JSON is merged over them, its keys winning, and the load fails unless both credentials are then truthy. A successful load always has a truthy address and password. |
| Reader.EmailReader.constructor | src/gm_connect/reader.py:15-24 | The four settings are taken from the map, and there is no connection yet. |
| Reader.EmailReader.Connect | src/gm_connect/reader.py:26-29 | A new connection to the configured host and port, whose trace is exactly the LOGIN with the configured credentials. |
| Reader.EmailReader.ListFolders | src/gm_connect/reader.py:31-38 | Connects only when there is no connection, then sends LIST, keeping the session invariant. The result is empty when the status is not OK; otherwise it is one folder name per reply line, in order. |
| Reader.EmailReader.FetchEmails | src/gm_connect/reader.py:40-96 | Connects only when needed, then sends SELECT and UID SEARCH ALL, keeping the session invariant. A failed search gives nothing and fetches nothing. Otherwise one UID FETCH is sent per visited identifier, newest first, and the result is the summaries of the successful fetches. |
| Reader.EmailReader.DeleteEmail | src/gm_connect/reader.py:99-104 | On a fresh connection: LOGIN, SELECT, then STORE `+FLAGS (\Deleted)` by sequence number and EXPUNGE, with the fixed report. |
| Reader.EmailReader.BulkDelete | src/gm_connect/reader.py:107-157 | On a fresh connection: LOGIN and SELECT of the quoted folder, followed by `Batching.BulkCommands` and the report of `Batching.BulkOutcomeOf` for the keys built from the criteria. |
| Reader.EmailReader.MoveEmail | src/gm_connect/reader.py:162-174 | On a fresh connection: LOGIN, SELECT and COPY. Only on an OK COPY do STORE `\Deleted` and EXPUNGE follow. A failed COPY returns the failure text and flags nothing. |
| Reader.EmailReader.Logout | src/gm_connect/reader.py:179-183 | Afterwards there is no connection. A connection that existed carried an open session and received LOGOUT; without one, nothing is sent. |
| Reader.FetchEach | src/gm_connect/reader.py:62-96 | The fetch loop adds the fetch commands of the walk to the trace and returns the summaries of the successful fetches. |
| Reader.FetchOne | src/gm_connect/reader.py:64-94 | One turn of the fetch loop adds exactly one UID FETCH of the identifier to the trace, and keeps the message's summary exactly when the fetch succeeded. |
| Reader.SearchAndDelete | src/gm_connect/reader.py:141-157 | Sends UID SEARCH with the keys joined by spaces, then the batched deletion when the search matched. Returns the report of the outcome. |
| Reader.DeleteBatches | src/gm_connect/reader.py:149-154 | The batch loop adds exactly the STORE and EXPUNGE commands of every batch, in order, to the trace. |
| Reader.SendBatch | src/gm_connect/reader.py:152-154 | One turn of the deletion loop adds exactly the STORE `+FLAGS (\Deleted)` on the batch's UID set, then EXPUNGE, to the trace. |
| Manager.EmailManager.constructor | src/gm_connect/manager.py:11-13 | The manager's new reader holds the settings from the map and no connection. |
| Manager.EmailManager.ListFolders | src/gm_connect/manager.py:21-23 | The reader's folder list, unchanged, including the empty list on a failed LIST. |
| Manager.EmailManager.GetRecentEmails | src/gm_connect/manager.py:25-27 | Exactly the reader's `fetch_emails` on the same folder and limit, with defaults `INBOX` and 10. |
| Manager.EmailManager.DeleteEmail | src/gm_connect/manager.py:29-30 | The reader's single deletion with the same identifier and folder, with the folder defaulting to `INBOX`. |
| Manager.EmailManager.BulkDelete | src/gm_connect/manager.py:32-33 | The reader's bulk deletion with the same criteria and folder, always in batches of 50. |
| Manager.EmailManager.MoveEmail | src/gm_connect/manager.py:35-36 | The reader's copy-then-delete move with the same arguments, with the source defaulting to `INBOX`. |
| Manager.EmailManager.Close | src/gm_connect/manager.py:39-41 | Logs the reader out. Afterwards there is no connection, and a second close sends nothing. |

## Left out

- The TLS transport, `imaplib` and the server: the connection only records commands, and
  the LIST, UID SEARCH, UID FETCH and COPY replies are inputs. The exceptions `imaplib` raises
  (for example on a failed login) are not modelled.
- SELECT is assumed to succeed; its reply is not an input. After a NO to SELECT (an unknown
  folder, say) `imaplib` stays in the authenticated state. It then raises on the next UID
  SEARCH, STORE or COPY (src/gm_connect/reader.py:55, :102, :142, :167) without sending it.
  The model's traces show those commands as sent.
- Reader.EmailReader.FetchEmails: an OK UID FETCH always carries a message here. Under
  section 6.4.8 of RFC 3501, a UID expunged between the search and its fetch comes back OK
  with no data. `imaplib` then hands the code `[None]`, and `msg_data[0][1]`
  (src/gm_connect/reader.py:68) raises `TypeError`, so `fetch_emails` returns nothing. The
  model cannot express that reply.
- A BAD completion: `imaplib` raises on it, so a reply's status is only OK or NO here.
- Reader.EmailReader.ListFolders: returns `[]` for an OK LIST that carries no mailbox lines.
  There `imaplib` hands the code `[None]`, and `folder.decode()` raises `AttributeError`.
- MIME parsing and header decoding. The subject, the From and Date headers and the decoded
  body text of each fetched message are given as strings. Decoding with
  `errors="ignore"` is not modelled.
- The clock. The `BEFORE` date is given by a `dateBefore` function of the age in days, in place
  of `datetime.now() - timedelta(...)` and `strftime`.
- The progress `print` inside the batch loop, including its count, which can exceed the
  number deleted.
- Reader.EmailReader.BulkDelete: requires `batch_size >= 1`. In the code a zero batch size
  makes `range` raise, and a negative one skips the loop and reports every match as deleted.
- Reader.EmailReader.constructor: requires the four settings to be present, where the code
  raises `KeyError`. Loading the settings when no map is given (`config=None`) is not
  modelled; `Config.Load` is modelled on its own.
- Manager.EmailManager.constructor: the SMTP sender it also builds, and `send_email`, are not
  part of this model (mail sending is I/O through `smtplib`).
- Config.Load: `int` is modelled for optional whitespace, an optional sign and ASCII digits.
  The underscores and non-ASCII digits Python also accepts are not modelled. A JSON file that
  fails to parse, or is not an object, is not modelled: the document comes in as a map.
  Reading `.env` and checking that the files exist are replaced by the optional inputs.
- The values of the settings map are a small datatype with Python truthiness. Arrays and
  objects are kept only by their size.
