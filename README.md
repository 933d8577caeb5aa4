# CloudTunnel endpoint reconciliation, in Dafny

CloudTunnel supervises the playit tunnel agent and keeps a Cloudflare SRV
record pointed at the public endpoint the agent announces. This project
models the part of `main.py` that does the reconciling:

- `is_a_new_url` decides whether an agent output line is a new endpoint
  announcement. It keeps the module-level list `dns_changed_urls` of raw
  exposed-URL texts already handled. For a new announcement it cuts the host
  and the port out of the line.
- `playit_loop` strips each line the agent prints and hands it to
  `is_a_new_url`. For every new endpoint it calls `update_dns_record` with the
  zone, record id and token from the credentials.
- `ask_question` asks the operator again until the answer is the index of one
  of the offered choices.

Modules:

- `Wrappers` (wrappers.dfy): the `Option` type.
- `PyStr` (pystr.dfy): the Python `str` operations the extractor uses, as
  CPython defines them. These are `strip()`, `split(sep)`, `list[-1]` and
  `replace(c, "")`, with their properties.
- `Endpoint` (endpoint.dfy): the candidate test for the pattern `(.+)=>(.+)`,
  the two-name unpacking of `split("=>")`, and the host and port extraction.
- `Reconcile` (reconcile.dfy): the reconciliation state and the loop. The class
  `Tunnel` holds `dns_changed_urls` and the sequence of update calls issued.
  Its methods `IsANewUrl`, `UpdateDnsRecord`, `HandleLine` and `PlayitLoop`
  are proved against the functions `Verdict`, `SeenAfter`, `Feed` and `Run`.
  The lemmas about those functions state the at-most-once, growth, ordering
  and replay properties.
- `Scenarios` (scenarios.dfy): concrete runs on announcement lines of the
  shape the agent prints, each stated as the exact trace the loop leaves.
- `Prompt` (prompt.dfy): the selection loop of `ask_question`.

## Behaviour of the code worth knowing

- `is_a_new_url` keys its list on the raw left half of the line, spaces
  included, not on the host it returns. `Reconcile.Decide` looks up `raw`, and
  the host is that text with its spaces removed. `host => …` and `host=> …` are
  two different keys, so the same host can be updated twice
  (`Scenarios.SpacingScenario`).
- A candidate line with two or more `=>` is not split at its first arrow. The
  two-name unpacking at main.py:196 raises `ValueError`. Nothing catches it, so
  the loop ends (`Answer.Raised`, `Trace.raised`).
- A line is a candidate when some `=>` has one character other than a newline
  on each side. The port can then be empty, and the endpoint is still new and
  still sent to `update_dns_record` (`Scenarios.NoColonScenario`). When
  `is_a_new_url` is called directly, a half made only of spaces is accepted as
  well. Inside the loop that cannot happen, because the line is stripped first.

## Model

| member | source | states |
|---|---|---|
| `Endpoint.RegexSearchFinds` | main.py:194-195 | The search for `(.+)=>(.+)` succeeds exactly when some `=>` has a non-newline character right before it and right after it. |
| `Endpoint.ParseHalves` | main.py:195-196 | A line splits into the halves `l` and `r` exactly when it is `l + "=>" + r`, neither half holds a `=>`, both are non-empty, and the characters next to the arrow are not newlines. |
| `Endpoint.ParseUnpackError` | main.py:195-196 | The unpacking of `split("=>")` raises exactly when the line is a candidate and holds two or more `=>`. |
| `Endpoint.PortShape` | main.py:200-201 | The port is a prefix of the text after the last `:` of the right half, or of the whole right half when it has no `:`. The port holds no space and is followed by a space or the end. It is empty exactly when that text is empty or starts with a space. |
| `Endpoint.PortIs` | main.py:200-201 | Conversely, any colon-free suffix after the last `:` and any space-free prefix of it ending at a space or the end is the port. |
| `PyStr.RemoveAllCounts` | main.py:202 | `replace(" ", "")` leaves no space, keeps every other character with its count, and changes nothing in a text without spaces. |
| `PyStr.RemoveAllAppend` | main.py:202 | `replace(" ", "")` distributes over concatenation. |
| `PyStr.SplitOnJoin` | main.py:196 | Joining the pieces of `split(sep)` with `sep` gives the string back. |
| `PyStr.FirstPiece` | main.py:201 | The first piece of `split(sep)` is the prefix before the first `sep`, or the whole string when there is none, and it holds no `sep`. |
| `PyStr.LastPiece` | main.py:200 | `split(sep)[-1]` is the suffix after the last `sep`. It is the whole string exactly when there is no `sep`, and it holds no `sep`. |
| `PyStr.StripPiece` | main.py:214 | `strip()` returns a contiguous piece of the line with only whitespace around it. |
| `PyStr.StripIdempotent` | main.py:214 | Stripping a stripped line changes nothing. |
| `Reconcile.VerdictNoMatch` | main.py:194-195 | A line with no `=>` that has a non-newline character on each side gives `[None, None]` and leaves `dns_changed_urls` unchanged. |
| `Reconcile.VerdictFresh` | main.py:196-204 | A line `l + "=>" + r` whose raw left half `l` is not yet seen gives `l` without spaces and the port cut from `r`, and appends exactly `l` to the list. |
| `Reconcile.VerdictSeen` | main.py:196-198 | A line whose raw left half is already in the list gives `[None, None]` and leaves the list unchanged. |
| `Reconcile.VerdictTwoArrows` | main.py:195-196 | A candidate line with two `=>` raises before the list is touched. |
| `Reconcile.RememberGrows` | main.py:190-199 | The list only grows, by at most one element, and does so exactly when a new URL is answered. The element added is the raw left half, which was not yet in the list. A list without duplicates stays without duplicates. |
| `Reconcile.FreshLinesExact` | main.py:197-199 | The fresh announcements of a run, listed in increasing line order, are exactly the lines read before any raise whose raw left half is neither in the starting list nor announced by an earlier line. |
| `Reconcile.RunRecords` | main.py:208-226 | The run issues one update per fresh announcement, in arrival order. Call `k` goes with the `k`-th fresh line, and the raw left half of that line is the `k`-th text appended to the list. The call carries the zone, record id and token of the credentials unchanged, that raw half with its spaces removed, and the port cut from the line's right half. The list keeps its starting texts and stays free of duplicates. |
| `Reconcile.RunRaised` | main.py:196 | A run ends with an escaped exception exactly when one of its lines is a candidate with a failed unpacking. |
| `Reconcile.RunKeys` | main.py:197-199 | After a run that did not raise, the list holds exactly the starting texts and the raw left halves of every announcement read. |
| `Reconcile.RunReplay` | main.py:208-226 | Replaying the same lines against the list a run left behind issues no further update and leaves the list as it is. |
| `Reconcile.RunRepeatedKey` | main.py:213-226 | Lines that all carry the same new raw left half give exactly one update, made from the first of them. |
| `Reconcile.RunNoCandidates` | main.py:213-217 | Lines none of which is a candidate issue no update and leave the list alone. |
| `Reconcile.RunWithoutArrows` | main.py:213-217 | Lines without a `=` issue no update and leave the list alone. |
| `Reconcile.RunAppend` | main.py:208-226 | The lines are consumed in arrival order: a run on `a + b` is the run on `a`, then the run on `b` from the list that `a` left. |
| `Reconcile.RunStopsAtRaise` | main.py:196 | Once a line raised, the lines after it change nothing. |
| `Reconcile.Tunnel.constructor` | main.py:190 | The list starts empty, and no update has been issued. |
| `Reconcile.Tunnel.IsANewUrl` | main.py:193-205 | The answer and the new list are those of `Verdict` and `SeenAfter` on the old list. |
| `Reconcile.Tunnel.UpdateDnsRecord` | main.py:123-142 | The call is appended to the record of updates with its five arguments. Nothing else changes, and its outcome is not read back. |
| `Reconcile.Tunnel.HandleLine` | main.py:213-226 | One pass of the loop body: the list and the updates move as `Feed` says for this read. An empty read is skipped. |
| `Reconcile.Tunnel.PlayitLoop` | main.py:208-226 | After the loop over `lines`, the list, the appended update calls and whether it raised are those of `Run`. |
| `Scenarios.ClassifyOfAnnouncement` | main.py:196-204 | `host => addr:port` is an announcement. Its raw left half keeps the space before the arrow, its host is `host`, and its port is `port`. |
| `Scenarios.AnnouncementScenario` | main.py:213-226 | A single announcement issues one update with target `host` and port `port`, and records `host ` as seen. |
| `Scenarios.PortChangeScenario` | main.py:197-198 | The same host announced again with another port is suppressed, so the record keeps the first port. |
| `Scenarios.SpacingScenario` | main.py:197-202 | Two write-ups of one host that differ only in the space before the arrow are two keys, giving two updates of the same host. |
| `Scenarios.NoColonScenario` | main.py:200-201 | An address with no `:` gives the empty port, and the update is still issued. |
| `Scenarios.TwoArrowsScenario` | main.py:195-196 | A line with two arrows ends the loop, and the lines after it are never handled. |
| `Prompt.FirstAcceptedIsFirst` | main.py:48-52 | The selection is an attempt that parsed and lies in `[0, count)`, with no accepted attempt before it. When there is no selection, no attempt is accepted. |
| `Prompt.FirstAcceptedIgnoresLater` | main.py:48-52 | Once an answer is accepted, later input does not change the selection. |
| `Prompt.NoChoicesNeverSelects` | main.py:48-55 | With no choices on offer, no attempt is ever accepted. |
| `Prompt.AskQuestion` | main.py:42-55 | The returned index always lies in `[0, len(questions))` and is the first accepted attempt. Out-of-range and non-integer attempts are skipped. Nothing is returned exactly when no attempt is accepted. |

## Left out

- `bind_stdout` (main.py:13-25): a reader thread. The loop is given the
  agent's output as a finite sequence of `readline()` results instead.
- `check_requirements`, `setup_playit`, `start_playit`, `read_credentials`,
  `setup_credentials` and `main`: OS checks, downloads, process launch, file
  and JSON I/O, and HTTP requests. The credentials are an immutable input value.
- The HTTP request in `update_dns_record`: only the call and its arguments
  are recorded. Its status and the messages it prints do not affect the loop.
- `Reconcile.Tunnel.UpdateDnsRecord`: the update never fails in the model.
  In the source, `requests.patch` (main.py:136) has no `try` and no timeout, so
  a connection error raises out of `update_dns_record`. `playit_loop` does not
  catch it (main.py:220-226), so the loop ends, as it does for the
  `ValueError` the model carries as `raised`. The model does not include
  network errors, and the network call can also block forever.
- The regex engine: the search for `(.+)=>(.+)` is modelled by the condition
  under which it matches.
- The busy-wait on `stdout is None`, the endless `while True` and the
  unreachable `poll()`: the loop runs over a finite prefix of the output.
- The unused value `local_url.replace(" ", "")` (main.py:203) and every `print`.
- `Prompt.AskQuestion`: `int(input())` is given as a sequence of parsed
  attempts (`None` for a `ValueError`). When the attempts run out before one is
  accepted, the model returns `None`. In the source, `input()` then either
  blocks for more input or, when standard input has ended, raises `EOFError`.
  The `except ValueError` at main.py:54 does not catch `EOFError`, so it
  escapes `ask_question`. The model does not tell these two cases apart.
