/**
 * Worked runs of the reconciliation loop on concrete agent output, each stated
 * as the exact trace the loop leaves behind.
 */
module Scenarios {
  import opened PyStr
  import opened Endpoint
  import opened Reconcile

  /** A line `l + "=>" + r` with one `=>` and a non-newline character on each
      side of it is the announcement of `l`. */
  lemma ClassifyAnnouncement(command: string, l: string, r: string)
    requires command == l + Arrow + r && '=' !in l && '=' !in r
    requires l != [] && r != [] && l[|l| - 1] != '\n' && r[0] != '\n'
    ensures Classify(command) == Announce(l, Host(l), Port(r))
  {
    NoEqualsFree(l);
    NoEqualsFree(r);
    ParseHalves(command, l, r);
  }

  /** A line as `readline()` hands it over, ending in a newline, strips back to
      its text when that text has nothing to strip at its ends. */
  lemma StripLine(s: string)
    requires s != [] && s[0] !in Whitespace && s[|s| - 1] !in Whitespace
    ensures Strip(s + "\n") == s
  {
    var line := s + "\n";
    assert LStrip(line, Whitespace) == line;
    assert line[..|line| - 1] == s;
    assert RStrip(line, Whitespace) == RStrip(s, Whitespace);
  }

  /** The text `host => addr:port` the tunnel agent prints for an exposed endpoint. */
  function Announcement(host: string, addr: string, port: string): string {
    host + " " + Arrow + " " + addr + ":" + port
  }

  /** A host name as the agent prints it: no whitespace and no `=`. */
  predicate HostName(host: string) {
    host != [] && forall k :: 0 <= k < |host| ==> host[k] !in Whitespace && host[k] != '='
  }

  /** A port as the agent prints it: decimal digits. */
  predicate Digits(port: string) {
    port != [] && forall k :: 0 <= k < |port| ==> '0' <= port[k] <= '9'
  }

  /** The host of a left half that is a host name and the space before the arrow. */
  lemma HostOfLeft(host: string)
    requires HostName(host)
    ensures Host(host + " ") == host
  {
    RemoveAllAppend(host, " ", ' ');
    RemoveAllCounts(host, ' ');
  }

  /** The port of a right half that ends in `:` and digits. */
  lemma PortOfRight(addr: string, port: string)
    requires Digits(port)
    ensures Port(" " + addr + ":" + port) == port
  {
    var r := " " + addr + ":" + port;
    assert r[|r| - |port|..] == port;
    PortIs(r, port, port);
  }

  /** How an announcement is classified: the raw left half keeps the space
      before the arrow, the host drops it, and the port is the digits after the
      last `:`. */
  lemma ClassifyOfAnnouncement(host: string, addr: string, port: string)
    requires HostName(host) && Digits(port) && '=' !in addr
    ensures Classify(Announcement(host, addr, port)) == Announce(host + " ", host, port)
  {
    var command := Announcement(host, addr, port);
    var l, r := host + " ", " " + addr + ":" + port;
    assert command == l + Arrow + r;
    assert '=' !in r by {
      assert forall k :: 0 <= k < |port| ==> r[|r| - |port| + k] == port[k];
    }
    ClassifyAnnouncement(command, l, r);
    HostOfLeft(host);
    PortOfRight(addr, port);
  }

  /** An announcement read with its newline is classified as above. */
  lemma ReadOfAnnouncement(host: string, addr: string, port: string)
    requires HostName(host) && Digits(port) && '=' !in addr
    ensures ReadOf(Announcement(host, addr, port) + "\n") == Got(Announce(host + " ", host, port))
  {
    var command := Announcement(host, addr, port);
    assert Strip(command + "\n") == command by {
      assert command[0] == host[0];
      assert command[|command| - 1] == port[|port| - 1];
      StripLine(command);
    }
    ClassifyOfAnnouncement(host, addr, port);
  }

  /** The single announcement `host => addr:port` points the record at `host` on
      `port` and remembers the raw left half, trailing space included. */
  lemma AnnouncementScenario(c: Credentials, host: string, addr: string, port: string)
    requires HostName(host) && Digits(port) && '=' !in addr
    ensures Run(c, [], [Announcement(host, addr, port) + "\n"]) ==
      Trace([UpdateFor(c, host, port)], [host + " "], false)
  {
    ReadOfAnnouncement(host, addr, port);
  }

  /** The same raw left half announced again with another port is ignored: the
      record keeps the first port. */
  lemma PortChangeScenario(c: Credentials, host: string, addr1: string, port1: string, addr2: string, port2: string)
    requires HostName(host) && Digits(port1) && Digits(port2) && '=' !in addr1 && '=' !in addr2
    ensures Run(c, [], [Announcement(host, addr1, port1) + "\n", Announcement(host, addr2, port2) + "\n"]) ==
      Trace([UpdateFor(c, host, port1)], [host + " "], false)
  {
    var lines := [Announcement(host, addr1, port1) + "\n", Announcement(host, addr2, port2) + "\n"];
    ReadOfAnnouncement(host, addr1, port1);
    ReadOfAnnouncement(host, addr2, port2);
    var first := Trace([UpdateFor(c, host, port1)], [host + " "], false);
    assert Run(c, [], lines[..1]) == first by {
      assert lines[..1] == [lines[0]];
      assert lines[..1][..0] == [];
    }
    assert Feed(c, first, ReadOf(lines[1])) == first;
  }

  /** The same announcement written without the space before the arrow, read
      with its newline: the raw left half is the bare host. */
  lemma ReadOfTightAnnouncement(host: string, addr: string, port: string)
    requires HostName(host) && Digits(port) && '=' !in addr
    ensures ReadOf(host + Arrow + " " + addr + ":" + port + "\n") == Got(Announce(host, host, port))
  {
    var command := host + Arrow + " " + addr + ":" + port;
    var r := " " + addr + ":" + port;
    assert command + "\n" == host + Arrow + " " + addr + ":" + port + "\n";
    assert Strip(command + "\n") == command by {
      assert command[0] == host[0];
      assert command[|command| - 1] == port[|port| - 1];
      StripLine(command);
    }
    assert command == host + Arrow + r;
    assert '=' !in r by {
      assert forall k :: 0 <= k < |port| ==> r[|r| - |port| + k] == port[k];
    }
    ClassifyAnnouncement(command, host, r);
    RemoveAllCounts(host, ' ');
    PortOfRight(addr, port);
  }

  /** Write-ups differing only in the space before the arrow are different raw
      texts, so the same host is updated twice. */
  lemma SpacingScenario(c: Credentials, host: string, addr1: string, port1: string, addr2: string, port2: string)
    requires HostName(host) && Digits(port1) && Digits(port2) && '=' !in addr1 && '=' !in addr2
    ensures Run(c, [], [Announcement(host, addr1, port1) + "\n", host + Arrow + " " + addr2 + ":" + port2 + "\n"]) ==
      Trace([UpdateFor(c, host, port1), UpdateFor(c, host, port2)], [host + " ", host], false)
  {
    var lines := [Announcement(host, addr1, port1) + "\n", host + Arrow + " " + addr2 + ":" + port2 + "\n"];
    ReadOfAnnouncement(host, addr1, port1);
    ReadOfTightAnnouncement(host, addr2, port2);
    var first := Trace([UpdateFor(c, host, port1)], [host + " "], false);
    assert Run(c, [], lines[..1]) == first by {
      assert lines[..1] == [lines[0]];
      assert lines[..1][..0] == [];
    }
    assert host !in [host + " "] by {
      assert |host + " "| != |host|;
    }
    assert Feed(c, first, ReadOf(lines[1])) ==
      Trace([UpdateFor(c, host, port1), UpdateFor(c, host, port2)], [host + " ", host], false);
  }

  /** An announcement whose local address has no `:` gets the empty port: the
      whole right half is the text after the last `:`, and it starts with a space. */
  lemma NoColonScenario(c: Credentials, host: string, addr: string)
    requires HostName(host) && HostName(addr) && ':' !in addr
    ensures Run(c, [], [host + " " + Arrow + " " + addr + "\n"]) ==
      Trace([UpdateFor(c, host, "")], [host + " "], false)
  {
    var command := host + " " + Arrow + " " + addr;
    var l, r := host + " ", " " + addr;
    assert Strip(command + "\n") == command by {
      assert command[0] == host[0];
      assert command[|command| - 1] == addr[|addr| - 1];
      StripLine(command);
    }
    assert Classify(command) == Announce(l, host, "") by {
      assert command == l + Arrow + r;
      ClassifyAnnouncement(command, l, r);
      HostOfLeft(host);
      assert ':' !in r;
      PortIs(r, r, "");
    }
  }

  /** A line with two arrows raises, which ends the loop: the lines after it are
      never handled. */
  lemma TwoArrowsScenario(c: Credentials, host: string, rest: seq<string>)
    requires HostName(host)
    ensures Run(c, [], [host + Arrow + host + Arrow + host + "\n"] + rest) == Trace([], [], true)
  {
    var command := host + Arrow + host + Arrow + host;
    var n := |host|;
    var lines := [command + "\n"] + rest;
    assert Strip(command + "\n") == command by {
      assert command[0] == host[0];
      assert command[|command| - 1] == host[n - 1];
      StripLine(command);
    }
    assert command[n..n + 2] == Arrow && command[2 * n + 2..2 * n + 4] == Arrow;
    VerdictTwoArrows([], command, n, n, 2 * n + 2);
    assert lines[..1] == [command + "\n"];
    RunStopsAtRaise(c, [], lines, 1);
  }
}
