/**
 * The reconciliation state and loop of CloudTunnel: the module-level list
 * `dns_changed_urls` of raw exposed-URL texts already handled, `is_a_new_url`
 * that consults and grows it, and `playit_loop` that turns the tunnel agent's
 * output lines into calls of `update_dns_record`.
 */
module Reconcile {
  import opened PyStr
  import opened Endpoint

  /** The DNS record chosen at setup (`credentials["DNS_RECORD"]`). */
  datatype DnsRecord = DnsRecord(id: string, name: string, recordType: string)

  /** The credential dictionary: `CLOUDFLARE_API_TOKEN`, `ZONE_ID` and `DNS_RECORD`. */
  datatype Credentials = Credentials(apiToken: string, zoneId: string, dnsRecord: DnsRecord)

  /** One call `update_dns_record(zone_id, record_id, api_token, target, port)`. */
  datatype UpdateCall = UpdateCall(zoneId: string, recordId: string, apiToken: string, target: string, port: string)

  /** What `is_a_new_url` does with one line: it returns `[host, port]` for a new
      exposed URL, returns `[None, None]`, or raises the `ValueError` of the
      unpacking. */
  datatype Answer = NewUrl(host: string, port: string) | NotNew | Raised

  /** What `is_a_new_url` makes of a line before it consults the list: no
      candidate, a candidate whose unpacking raises, or an announcement whose raw
      left half is `raw`, with the host and the port cut out of its halves. */
  datatype Sighting = Noise | Malformed | Announce(raw: string, host: string, port: string)

  function Classify(command: string): Sighting {
    match Parse(command)
    case NoMatch => Noise
    case UnpackError => Malformed
    case Halves(left, right) => Announce(left, Host(left), Port(right))
  }

  /** The answer for a sighting when `dns_changed_urls` is `seen`. */
  function Decide(seen: seq<string>, s: Sighting): Answer {
    match s
    case Noise => NotNew
    case Malformed => Raised
    case Announce(raw, host, port) => if raw in seen then NotNew else NewUrl(host, port)
  }

  /** `dns_changed_urls` after a sighting: a raw left half not yet in it is appended. */
  function Remember(seen: seq<string>, s: Sighting): seq<string> {
    if s.Announce? && s.raw !in seen then seen + [s.raw] else seen
  }

  /** The answer of `is_a_new_url(command)` when `dns_changed_urls` is `seen`. */
  function Verdict(seen: seq<string>, command: string): Answer {
    Decide(seen, Classify(command))
  }

  /** `dns_changed_urls` after `is_a_new_url(command)`. */
  function SeenAfter(seen: seq<string>, command: string): seq<string> {
    Remember(seen, Classify(command))
  }

  /** No element occurs twice. */
  ghost predicate NoDuplicates(s: seq<string>) {
    forall i, j :: 0 <= i < j < |s| ==> s[i] != s[j]
  }

  /** A line without an `=>` that has a non-newline character on each side is
      not a candidate: no endpoint, and the list is left as it was. */
  lemma VerdictNoMatch(seen: seq<string>, command: string)
    requires forall p :: !ArrowInContext(command, p)
    ensures Verdict(seen, command) == NotNew && SeenAfter(seen, command) == seen
  {
    RegexSearchFinds(command);
  }

  /** A line `l + "=>" + r` whose raw left half `l` is not yet in the list gives
      the host `l` without spaces and the port cut from `r`, and appends exactly `l`. */
  lemma VerdictFresh(seen: seq<string>, command: string, l: string, r: string)
    requires command == l + Arrow + r && Free(l, Arrow) && Free(r, Arrow)
    requires l != [] && r != [] && l[|l| - 1] != '\n' && r[0] != '\n'
    requires l !in seen
    ensures Verdict(seen, command) == NewUrl(RemoveAll(l, ' '), Port(r))
    ensures SeenAfter(seen, command) == seen + [l]
  {
    ParseHalves(command, l, r);
  }

  /** A line whose raw left half is already in the list is rejected and leaves it unchanged. */
  lemma VerdictSeen(seen: seq<string>, command: string, l: string, r: string)
    requires command == l + Arrow + r && Free(l, Arrow) && Free(r, Arrow)
    requires l != [] && r != [] && l[|l| - 1] != '\n' && r[0] != '\n'
    requires l in seen
    ensures Verdict(seen, command) == NotNew && SeenAfter(seen, command) == seen
  {
    ParseHalves(command, l, r);
  }

  /** A candidate line with two `=>` makes `is_a_new_url` raise, before the list is touched. */
  lemma VerdictTwoArrows(seen: seq<string>, command: string, p: int, i: int, j: int)
    requires ArrowInContext(command, p)
    requires i < j && Occurs(command, Arrow, i) && Occurs(command, Arrow, j)
    ensures Verdict(seen, command) == Raised && SeenAfter(seen, command) == seen
  {
    RegexSearchFinds(command);
    ParseUnpackError(command);
  }

  /** The list only grows, by at most one element, exactly when a new URL is
      answered, and that element is the raw text of the sighting; a list without
      duplicates stays so. */
  lemma RememberGrows(seen: seq<string>, s: Sighting)
    ensures var after := Remember(seen, s);
      |seen| <= |after| <= |seen| + 1 && after[..|seen|] == seen
    ensures Decide(seen, s).NewUrl? <==> Remember(seen, s) != seen
    ensures Decide(seen, s).NewUrl? ==>
      Remember(seen, s) == seen + [s.raw] && s.raw !in seen &&
      Decide(seen, s) == NewUrl(s.host, s.port)
    ensures NoDuplicates(seen) ==> NoDuplicates(Remember(seen, s))
  {
    var after := Remember(seen, s);
    assert after[..|seen|] == seen;
  }

  /** What the loop has done so far: the update calls issued, the list, and
      whether an exception escaped. */
  datatype Trace = Trace(calls: seq<UpdateCall>, seen: seq<string>, raised: bool)

  /** What one `readline()` hands the loop: nothing (an empty read is skipped), or
      a line, which the loop strips and `is_a_new_url` classifies. */
  datatype Read = Empty | Got(sighting: Sighting)

  function ReadOf(output: string): Read {
    if output == "" then Empty else Got(Classify(Strip(output)))
  }

  function ReadsOf(lines: seq<string>): (rs: seq<Read>)
    ensures |rs| == |lines| && forall j :: 0 <= j < |lines| ==> rs[j] == ReadOf(lines[j])
  {
    seq(|lines|, j requires 0 <= j < |lines| => ReadOf(lines[j]))
  }

  /** The update call the loop issues for a host and port. */
  function UpdateFor(c: Credentials, host: string, port: string): UpdateCall {
    UpdateCall(c.zoneId, c.dnsRecord.id, c.apiToken, host, port)
  }

  /** One iteration of the loop. */
  function Feed(c: Credentials, t: Trace, r: Read): Trace {
    match r
    case Empty => t
    case Got(s) =>
      match Decide(t.seen, s)
      case NewUrl(host, port) => Trace(t.calls + [UpdateFor(c, host, port)], Remember(t.seen, s), t.raised)
      case NotNew => t
      case Raised => t.(raised := true)
  }

  /** The loop over a finite sequence of reads, starting from the list `seen`;
      it stops at the first line that raises. */
  function Steps(c: Credentials, seen: seq<string>, rs: seq<Read>): Trace
    decreases |rs|
  {
    if rs == [] then Trace([], seen, false)
    else
      var t := Steps(c, seen, rs[..|rs| - 1]);
      if t.raised then t else Feed(c, t, rs[|rs| - 1])
  }

  /** The loop over a finite prefix `lines` of the agent's output, starting from
      the list `seen`; it stops at the first line that raises. */
  function Run(c: Credentials, seen: seq<string>, lines: seq<string>): Trace
    decreases |lines|
  {
    if lines == [] then Trace([], seen, false)
    else
      var t := Run(c, seen, lines[..|lines| - 1]);
      if t.raised then t else Feed(c, t, ReadOf(lines[|lines| - 1]))
  }

  /** The loop over lines is the loop over what is read from them. */
  lemma {:induction false} RunIsSteps(c: Credentials, seen: seq<string>, lines: seq<string>)
    decreases |lines|
    ensures Run(c, seen, lines) == Steps(c, seen, ReadsOf(lines))
  {
    if lines != [] {
      var init := lines[..|lines| - 1];
      var rs := ReadsOf(lines);
      assert rs[..|rs| - 1] == ReadsOf(init);
      RunIsSteps(c, seen, init);
    }
  }

  /** Running on `rs` after the run `t`: nothing more once an exception escaped. */
  function Then(c: Credentials, t: Trace, rs: seq<Read>): Trace {
    if t.raised then t
    else
      var u := Steps(c, t.seen, rs);
      Trace(t.calls + u.calls, u.seen, u.raised)
  }

  /** Feeding a read only appends to the calls issued so far. */
  lemma FeedExtends(c: Credentials, earlier: seq<UpdateCall>, u: Trace, r: Read)
    ensures Feed(c, Trace(earlier + u.calls, u.seen, u.raised), r) ==
      var v := Feed(c, u, r); Trace(earlier + v.calls, v.seen, v.raised)
  {
    if r.Got? && Decide(u.seen, r.sighting).NewUrl? {
      var d := Decide(u.seen, r.sighting);
      var call := UpdateFor(c, d.host, d.port);
      assert earlier + u.calls + [call] == earlier + (u.calls + [call]);
    }
  }

  /** The loop consumes its reads in arrival order: running on `a + b` is running on
      `a`, then on `b` from the list `a` left behind. */
  lemma {:induction false} StepsAppend(c: Credentials, seen: seq<string>, a: seq<Read>, b: seq<Read>)
    decreases |b|
    ensures Steps(c, seen, a + b) == Then(c, Steps(c, seen, a), b)
  {
    if b == [] {
      assert a + b == a;
    } else {
      var b' := b[..|b| - 1];
      var x := b[|b| - 1];
      assert (a + b)[..|a + b| - 1] == a + b';
      assert (a + b)[|a + b| - 1] == x;
      StepsAppend(c, seen, a, b');
      var ta := Steps(c, seen, a);
      if !ta.raised {
        var u := Steps(c, ta.seen, b');
        if !u.raised {
          FeedExtends(c, ta.calls, u, x);
        }
      }
    }
  }

  /** Over lines: a run on `a + b` is the run on `a` followed by the run on `b`. */
  lemma RunAppend(c: Credentials, seen: seq<string>, a: seq<string>, b: seq<string>)
    ensures Run(c, seen, a + b) == Then(c, Run(c, seen, a), ReadsOf(b))
  {
    assert ReadsOf(a + b) == ReadsOf(a) + ReadsOf(b);
    RunIsSteps(c, seen, a + b);
    RunIsSteps(c, seen, a);
    StepsAppend(c, seen, ReadsOf(a), ReadsOf(b));
  }

  /** Once an exception escaped, later reads change nothing. */
  lemma StepsStopAtRaise(c: Credentials, seen: seq<string>, a: seq<Read>, b: seq<Read>)
    requires Steps(c, seen, a).raised
    ensures Steps(c, seen, a + b) == Steps(c, seen, a)
  {
    StepsAppend(c, seen, a, b);
  }

  /** Once a prefix of the lines raised, the rest of them change nothing. */
  lemma RunStopsAtRaise(c: Credentials, seen: seq<string>, lines: seq<string>, i: nat)
    requires i <= |lines| && Run(c, seen, lines[..i]).raised
    ensures Run(c, seen, lines) == Run(c, seen, lines[..i])
  {
    var a, b := lines[..i], lines[i..];
    assert a + b == lines;
    RunAppend(c, seen, a, b);
  }

  /** How `is_a_new_url` parses a line once the loop has stripped it. */
  function LineParse(line: string): Parsed {
    Parse(Strip(line))
  }

  /** The line is a candidate whose unpacking raises. */
  predicate LineRaises(line: string) {
    LineParse(line) == UnpackError
  }

  /** The line is an announcement whose raw left half is `key`. */
  predicate LineAnnounces(line: string, key: string) {
    LineParse(line).Halves? && LineParse(line).left == key
  }

  /** Line `j` is a fresh announcement: no earlier line raised, and its raw left
      half is neither in `seen` nor announced by an earlier line. */
  ghost predicate FreshLine(seen: seq<string>, lines: seq<string>, j: int) {
    0 <= j < |lines| && LineParse(lines[j]).Halves? &&
    (forall i :: 0 <= i < j ==> !LineRaises(lines[i])) &&
    LineParse(lines[j]).left !in seen &&
    (forall i :: 0 <= i < j ==> !LineAnnounces(lines[i], LineParse(lines[j]).left))
  }

  /** The positions of the fresh announcements among `lines`, in arrival order. */
  ghost function FreshLines(seen: seq<string>, lines: seq<string>): seq<nat>
    decreases |lines|
  {
    if lines == [] then []
    else FreshLines(seen, lines[..|lines| - 1]) + (if FreshLine(seen, lines, |lines| - 1) then [|lines| - 1] else [])
  }

  /** Freshness of line `j` depends only on the lines up to `j`. */
  lemma FreshLinePrefix(seen: seq<string>, lines: seq<string>, n: nat, j: int)
    requires n <= |lines| && j < n
    ensures FreshLine(seen, lines[..n], j) <==> FreshLine(seen, lines, j)
  {
    if 0 <= j {
      assert forall i :: 0 <= i <= j ==> lines[..n][i] == lines[i];
    }
  }

  /** `FreshLines` lists exactly the fresh announcements, each once, in increasing order. */
  lemma {:induction false} FreshLinesExact(seen: seq<string>, lines: seq<string>)
    decreases |lines|
    ensures forall k :: 0 <= k < |FreshLines(seen, lines)| ==> FreshLine(seen, lines, FreshLines(seen, lines)[k])
    ensures forall k, m :: 0 <= k < m < |FreshLines(seen, lines)| ==> FreshLines(seen, lines)[k] < FreshLines(seen, lines)[m]
    ensures forall j :: FreshLine(seen, lines, j) ==> j in FreshLines(seen, lines)
  {
    if lines != [] {
      var n := |lines| - 1;
      var init := lines[..n];
      FreshLinesExact(seen, init);
      var js0 := FreshLines(seen, init);
      forall k | 0 <= k < |js0| ensures FreshLine(seen, lines, js0[k]) {
        assert FreshLine(seen, init, js0[k]);
        FreshLinePrefix(seen, lines, n, js0[k]);
      }
      forall j | FreshLine(seen, lines, j) && j < n ensures j in js0 {
        FreshLinePrefix(seen, lines, n, j);
      }
    }
  }

  /** The last line's effect on a run, in terms of how that line parses: nothing
      after a raise or for a non-candidate, a raise for a failed unpacking, and
      for an announcement one update and one appended raw half unless the half is
      already in the list. */
  lemma RunLast(c: Credentials, seen: seq<string>, lines: seq<string>)
    requires lines != []
    ensures var t, x := Run(c, seen, lines[..|lines| - 1]), lines[|lines| - 1];
      Run(c, seen, lines) ==
        if t.raised then t
        else match LineParse(x)
          case NoMatch => t
          case UnpackError => t.(raised := true)
          case Halves(l, r) =>
            if l in t.seen then t
            else Trace(t.calls + [UpdateFor(c, Host(l), Port(r))], t.seen + [l], false)
  {
    var x := lines[|lines| - 1];
    if x == "" {
      assert Strip(x) == "";
    }
  }

  /** A run raised exactly when one of its lines raises. */
  lemma {:induction false} RunRaised(c: Credentials, seen: seq<string>, lines: seq<string>)
    decreases |lines|
    ensures Run(c, seen, lines).raised <==> exists j :: 0 <= j < |lines| && LineRaises(lines[j])
  {
    if lines != [] {
      var n := |lines| - 1;
      var init := lines[..n];
      RunRaised(c, seen, init);
      RunLast(c, seen, lines);
      if exists j :: 0 <= j < n && LineRaises(init[j]) {
        var j :| 0 <= j < n && LineRaises(init[j]);
        assert lines[j] == init[j];
      }
      if exists j :: 0 <= j < |lines| && LineRaises(lines[j]) {
        var j :| 0 <= j < |lines| && LineRaises(lines[j]);
        if j < n {
          assert init[j] == lines[j];
        }
      }
    }
  }

  /** A run that did not raise holds in its list exactly the initial texts and the
      raw halves of all its announcements. */
  lemma {:induction false} RunKeys(c: Credentials, seen: seq<string>, lines: seq<string>)
    decreases |lines|
    ensures !Run(c, seen, lines).raised ==>
      forall key :: key in Run(c, seen, lines).seen <==>
        key in seen || exists i :: 0 <= i < |lines| && LineAnnounces(lines[i], key)
  {
    if lines != [] {
      var n := |lines| - 1;
      var init := lines[..n];
      RunKeys(c, seen, init);
      RunLast(c, seen, lines);
      var t := Run(c, seen, init);
      var u := Run(c, seen, lines);
      if !u.raised {
        assert !t.raised;
        forall key ensures key in u.seen <==> key in seen || exists i :: 0 <= i < |lines| && LineAnnounces(lines[i], key) {
          if LineAnnounces(lines[n], key) {
            assert key in u.seen;
          }
          if exists i :: 0 <= i < n && LineAnnounces(init[i], key) {
            var i :| 0 <= i < n && LineAnnounces(init[i], key);
            assert lines[i] == init[i];
          }
          if exists i :: 0 <= i < |lines| && LineAnnounces(lines[i], key) {
            var i :| 0 <= i < |lines| && LineAnnounces(lines[i], key);
            if i < n {
              assert LineAnnounces(init[i], key);
            }
          }
        }
      }
    }
  }

  /** The last line is a fresh announcement exactly when nothing raised before it
      and its raw half is not in the list the earlier lines left. */
  lemma FreshLast(c: Credentials, seen: seq<string>, lines: seq<string>)
    requires lines != []
    ensures var t, x := Run(c, seen, lines[..|lines| - 1]), lines[|lines| - 1];
      FreshLine(seen, lines, |lines| - 1) <==>
        !t.raised && LineParse(x).Halves? && LineParse(x).left !in t.seen
  {
    var n := |lines| - 1;
    var init := lines[..n];
    RunRaised(c, seen, init);
    RunKeys(c, seen, init);
    assert forall i :: 0 <= i < n ==> init[i] == lines[i];
  }

  /** `playit_loop` over `lines` issues exactly one update per fresh announcement,
      in arrival order: call `k` goes with line `FreshLines(seen, lines)[k]`,
      appends that line's raw left half to the list, and carries the zone, record
      and token of the credentials, the raw half with its spaces removed and the
      port cut from the right half. The list keeps no duplicates when it
      started without. */
  lemma {:induction false} RunRecords(c: Credentials, seen: seq<string>, lines: seq<string>)
    decreases |lines|
    ensures var t, js := Run(c, seen, lines), FreshLines(seen, lines);
      |t.calls| == |js| && |t.seen| == |seen| + |js| && t.seen[..|seen|] == seen &&
      forall k :: 0 <= k < |js| ==>
        js[k] < |lines| && LineParse(lines[js[k]]).Halves? &&
        t.seen[|seen| + k] == LineParse(lines[js[k]]).left &&
        t.calls[k] == UpdateFor(c, Host(LineParse(lines[js[k]]).left), Port(LineParse(lines[js[k]]).right))
    ensures NoDuplicates(seen) ==> NoDuplicates(Run(c, seen, lines).seen)
  {
    if lines != [] {
      var n := |lines| - 1;
      var init := lines[..n];
      RunRecords(c, seen, init);
      RunLast(c, seen, lines);
      FreshLast(c, seen, lines);
      FreshLinesExact(seen, init);
      var t := Run(c, seen, init);
      var js0 := FreshLines(seen, init);
      forall k | 0 <= k < |js0| ensures js0[k] < n && lines[js0[k]] == init[js0[k]] {
        assert FreshLine(seen, init, js0[k]);
      }
      if !t.raised && LineParse(lines[n]).Halves? {
        var l, r := LineParse(lines[n]).left, LineParse(lines[n]).right;
        RememberGrows(t.seen, Announce(l, Host(l), Port(r)));
      }
    }
  }

  /** A run from any list that already holds every raw text the run from `seen`
      recorded issues no update and leaves that list unchanged. */
  lemma {:induction false} StepsOnKnown(c: Credentials, seen: seq<string>, rs: seq<Read>, known: seq<string>)
    requires forall k :: k in Steps(c, seen, rs).seen ==> k in known
    decreases |rs|
    ensures Steps(c, known, rs) == Trace([], known, Steps(c, seen, rs).raised)
  {
    if rs != [] {
      var init := rs[..|rs| - 1];
      var x := rs[|rs| - 1];
      var t := Steps(c, seen, init);
      if !t.raised && x.Got? {
        RememberGrows(t.seen, x.sighting);
        assert forall k :: k in t.seen ==> k in Remember(t.seen, x.sighting);
      }
      StepsOnKnown(c, seen, init, known);
      if !t.raised && x.Got? && x.sighting.Announce? {
        assert x.sighting.raw in Remember(t.seen, x.sighting);
      }
    }
  }

  /** Replaying the same lines against the list a run left behind issues no further
      update and leaves the list as it is. */
  lemma RunReplay(c: Credentials, seen: seq<string>, lines: seq<string>)
    ensures var t := Run(c, seen, lines);
      Run(c, t.seen, lines) == Trace([], t.seen, t.raised)
  {
    RunIsSteps(c, seen, lines);
    RunIsSteps(c, Run(c, seen, lines).seen, lines);
    StepsOnKnown(c, seen, ReadsOf(lines), Run(c, seen, lines).seen);
  }

  /** Reads that all announce the same new raw left half give exactly one update,
      made from the first of them. */
  lemma {:induction false} StepsRepeatedKey(c: Credentials, seen: seq<string>, rs: seq<Read>, l: string)
    requires |rs| >= 1 && l !in seen
    requires forall j :: 0 <= j < |rs| ==> rs[j].Got? && rs[j].sighting.Announce? && rs[j].sighting.raw == l
    decreases |rs|
    ensures Steps(c, seen, rs) ==
      Trace([UpdateFor(c, rs[0].sighting.host, rs[0].sighting.port)], seen + [l], false)
  {
    var init := rs[..|rs| - 1];
    if |rs| == 1 {
      assert init == [];
    } else {
      assert init[0] == rs[0];
      StepsRepeatedKey(c, seen, init, l);
    }
  }

  /** Lines that all carry the same new raw left half give exactly one update,
      made from the first of them. */
  lemma RunRepeatedKey(c: Credentials, seen: seq<string>, lines: seq<string>, l: string)
    requires |lines| >= 1 && l !in seen
    requires forall j :: 0 <= j < |lines| ==>
      Parse(Strip(lines[j])).Halves? && Parse(Strip(lines[j])).left == l
    ensures Run(c, seen, lines) ==
      Trace([UpdateFor(c, Host(l), Port(Parse(Strip(lines[0])).right))], seen + [l], false)
  {
    var rs := ReadsOf(lines);
    forall j | 0 <= j < |lines| ensures rs[j].Got? && rs[j].sighting.Announce? && rs[j].sighting.raw == l {
      assert lines[j] != "" by {
        RegexSearchFinds(Strip(lines[j]));
      }
    }
    RunIsSteps(c, seen, lines);
    StepsRepeatedKey(c, seen, rs, l);
  }

  /** Reads none of which is a candidate issue no update and leave the list alone. */
  lemma {:induction false} StepsNoCandidates(c: Credentials, seen: seq<string>, rs: seq<Read>)
    requires forall j :: 0 <= j < |rs| ==> rs[j] == Empty || rs[j] == Got(Noise)
    decreases |rs|
    ensures Steps(c, seen, rs) == Trace([], seen, false)
  {
    if rs != [] {
      StepsNoCandidates(c, seen, rs[..|rs| - 1]);
    }
  }

  /** Lines none of which is a candidate issue no update and leave the list alone. */
  lemma RunNoCandidates(c: Credentials, seen: seq<string>, lines: seq<string>)
    requires forall j, p :: 0 <= j < |lines| ==> !ArrowInContext(Strip(lines[j]), p)
    ensures Run(c, seen, lines) == Trace([], seen, false)
  {
    forall j | 0 <= j < |lines| ensures !RegexSearch(Strip(lines[j])) {
      RegexSearchFinds(Strip(lines[j]));
    }
    RunIsSteps(c, seen, lines);
    StepsNoCandidates(c, seen, ReadsOf(lines));
  }

  /** Lines without a `=` issue no update and leave the list alone. */
  lemma RunWithoutArrows(c: Credentials, seen: seq<string>, lines: seq<string>)
    requires forall j :: 0 <= j < |lines| ==> '=' !in lines[j]
    ensures Run(c, seen, lines) == Trace([], seen, false)
  {
    forall j, p | 0 <= j < |lines| ensures !ArrowInContext(Strip(lines[j]), p) {
      StripPiece(lines[j], Whitespace);
      ArrowChars(Strip(lines[j]), p);
    }
    RunNoCandidates(c, seen, lines);
  }

  /** The state `is_a_new_url` and `update_dns_record` work on: the module-level list
      `dns_changed_urls`, and the record of the update calls made to the DNS provider. */
  class Tunnel {
    var dnsChangedUrls: seq<string>
    var dnsUpdates: seq<UpdateCall>

    constructor ()
      ensures dnsChangedUrls == [] && dnsUpdates == []
    {
      dnsChangedUrls := [];
      dnsUpdates := [];
    }

    /** `is_a_new_url(command)`. */
    method IsANewUrl(command: string) returns (a: Answer)
      modifies this`dnsChangedUrls
      ensures a == Verdict(old(dnsChangedUrls), command)
      ensures dnsChangedUrls == SeenAfter(old(dnsChangedUrls), command)
    {
      if !RegexSearch(command) {
        return NotNew;
      }
      var parts := SplitOn(command, Arrow);
      if |parts| != 2 {
        return Raised;
      }
      var exposedUrl, localUrl := parts[0], parts[1];
      if exposedUrl in dnsChangedUrls {
        return NotNew;
      }
      dnsChangedUrls := dnsChangedUrls + [exposedUrl];
      var port := Last(SplitOn(localUrl, ":"));
      port := SplitOn(port, " ")[0];
      exposedUrl := RemoveAll(exposedUrl, ' ');
      return NewUrl(exposedUrl, port);
    }

    /** `update_dns_record(zone_id, record_id, api_token, target, port)`: the request is
        recorded; its outcome is reported to the operator only and never read back. */
    method UpdateDnsRecord(zoneId: string, recordId: string, apiToken: string, target: string, port: string)
      modifies this`dnsUpdates
      ensures dnsUpdates == old(dnsUpdates) + [UpdateCall(zoneId, recordId, apiToken, target, port)]
    {
      dnsUpdates := dnsUpdates + [UpdateCall(zoneId, recordId, apiToken, target, port)];
    }

    /** One pass of the body of `playit_loop` on the read `output`: an empty read is
        skipped; otherwise the stripped line goes to `is_a_new_url`, and a new URL is
        sent to `update_dns_record`. `raised` tells whether `is_a_new_url` raised. */
    method HandleLine(credentials: Credentials, output: string) returns (raised: bool)
      modifies this
      ensures var t := Feed(credentials, Trace([], old(dnsChangedUrls), false), ReadOf(output));
        dnsChangedUrls == t.seen && dnsUpdates == old(dnsUpdates) + t.calls && raised == t.raised
    {
      raised := false;
      if output != "" {
        var command := Strip(output);
        ghost var s := Classify(command);
        assert ReadOf(output) == Got(s);
        var answer := IsANewUrl(command);
        match answer {
          case NewUrl(exposedUrl, port) =>
            UpdateDnsRecord(credentials.zoneId, credentials.dnsRecord.id, credentials.apiToken, exposedUrl, port);
          case NotNew =>
            RememberGrows(old(dnsChangedUrls), s);
          case Raised =>
            raised := true;
        }
      }
    }

    /** `playit_loop(credentials, ...)` over the finite sequence `lines` of reads from
        the agent; `raised` tells whether the `ValueError` of `is_a_new_url` ended it. */
    method PlayitLoop(credentials: Credentials, lines: seq<string>) returns (raised: bool)
      modifies this
      ensures var t := Run(credentials, old(dnsChangedUrls), lines);
        dnsChangedUrls == t.seen && dnsUpdates == old(dnsUpdates) + t.calls && raised == t.raised
    {
      ghost var seen0 := dnsChangedUrls;
      ghost var calls: seq<UpdateCall> := [];
      raised := false;
      var i := 0;
      while i < |lines| && !raised
        invariant 0 <= i <= |lines|
        invariant dnsUpdates == old(dnsUpdates) + calls
        invariant Run(credentials, seen0, lines[..i]) == Trace(calls, dnsChangedUrls, raised)
      {
        ghost var before := Trace(calls, dnsChangedUrls, false);
        ghost var updates := dnsUpdates;
        raised := HandleLine(credentials, lines[i]);
        ghost var step := Feed(credentials, Trace([], before.seen, false), ReadOf(lines[i]));
        assert dnsUpdates == updates + step.calls;
        FeedExtends(credentials, calls, Trace([], before.seen, false), ReadOf(lines[i]));
        calls := calls + step.calls;
        assert lines[..i + 1][..i] == lines[..i];
        i := i + 1;
      }
      if raised {
        RunStopsAtRaise(credentials, seen0, lines, i);
      } else {
        assert lines[..i] == lines;
      }
    }
  }
}
