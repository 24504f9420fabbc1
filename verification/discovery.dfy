/**
 * The discovery wire format: the announcement text a node broadcasts every
 * DISCOVERY_INTERVAL seconds, and how the listener takes it apart.
 * The listener uses Python's `str.split(":")`, modelled here by `Split`.
 */
module Discovery {

  import opened Common

  const BROADCAST_PORT: nat := 50000
  const DISCOVERY_INTERVAL: nat := 5  // seconds

  const SEP: char := ':'
  const TAG: string := "p2p"
  /** The literal prefix every announcement starts with. */
  const PREFIX: string := "p2p:"

  /** Python's `str.split(sep)`: the pieces between the separators, in order. */
  function Split(s: string, sep: char): (parts: seq<string>)
    ensures |parts| >= 1
    ensures forall i :: 0 <= i < |parts| ==> sep !in parts[i]
    ensures JoinWith(parts, sep) == s
    decreases |s|
  {
    if |s| == 0 then
      [""]
    else
      var rest := Split(s[1..], sep);
      if s[0] == sep then
        assert ([""] + rest)[1..] == rest;
        [""] + rest
      else
        var parts := [[s[0]] + rest[0]] + rest[1..];
        assert parts[1..] == rest[1..];
        assert s == [s[0]] + s[1..];
        parts
  }

  /** Python's `sep.join(parts)`. */
  function JoinWith(parts: seq<string>, sep: char): string
    requires |parts| >= 1
  {
    if |parts| == 1 then parts[0] else parts[0] + [sep] + JoinWith(parts[1..], sep)
  }

  /** A piece without separators splits to itself. */
  lemma SplitNoSep(a: string, sep: char)
    requires sep !in a
    ensures Split(a, sep) == [a]
  {
  }

  /** Splitting stops at the first separator and carries on after it. */
  lemma {:induction false} SplitCons(a: string, t: string, sep: char)
    requires sep !in a
    ensures Split(a + [sep] + t, sep) == [a] + Split(t, sep)
    decreases |a|
  {
    var s := a + [sep] + t;
    if |a| == 0 {
      assert s[1..] == t;
    } else {
      assert s[1..] == a[1..] + [sep] + t;
      SplitCons(a[1..], t, sep);
      assert [a[0]] + a[1..] == a;
    }
  }

  /** Split undoes JoinWith: the pieces of a joined text are the pieces it was joined from. */
  lemma {:induction false} SplitJoin(parts: seq<string>, sep: char)
    requires |parts| >= 1
    requires forall i :: 0 <= i < |parts| ==> sep !in parts[i]
    ensures Split(JoinWith(parts, sep), sep) == parts
    decreases |parts|
  {
    if |parts| == 1 {
      SplitNoSep(parts[0], sep);
    } else {
      SplitJoin(parts[1..], sep);
      SplitCons(parts[0], JoinWith(parts[1..], sep), sep);
      assert [parts[0]] + parts[1..] == parts;
    }
  }

  /** The first piece of a split is the text up to the first separator. */
  lemma SplitHead(s: string, sep: char)
    ensures var h := Split(s, sep)[0];
      |h| <= |s| && s[..|h|] == h && (|h| == |s| || s[|h|] == sep)
  {
  }

  /** The listener's filter: the text starts with "p2p:". */
  predicate IsAnnouncement(msg: string)
  {
    |msg| >= |PREFIX| && msg[..|PREFIX|] == PREFIX
  }

  /** `v` is the run of `msg` that starts at `from` and ends at the next separator or at the end. */
  predicate FieldAt(msg: string, from: nat, v: string)
  {
    && from + |v| <= |msg|
    && msg[from..from + |v|] == v
    && SEP !in v
    && (from + |v| == |msg| || msg[from + |v|] == SEP)
  }

  /** The message the broadcaster sends: `"p2p:" + local_ip`. */
  function Announcement(localIp: string): (msg: string)
    ensures IsAnnouncement(msg) && msg[|PREFIX|..] == localIp
  {
    PREFIX + localIp
  }

  /** An announcement splits into the tag and then the pieces of its address. */
  lemma SplitAnnouncement(rest: string)
    ensures Split(PREFIX + rest, SEP) == [TAG] + Split(rest, SEP)
  {
    assert PREFIX + rest == TAG + [SEP] + rest;
    SplitCons(TAG, rest, SEP);
  }

  /**
   * The listener's parse: datagrams without the prefix are dropped (None);
   * otherwise the address is `msg.split(":")[1]`.
   */
  function ParseAnnouncement(msg: string): (ip: Option<string>)
    ensures ip.Some? <==> IsAnnouncement(msg)
    ensures ip.Some? ==> FieldAt(msg, |PREFIX|, ip.value)
    ensures msg == PREFIX ==> ip == Some("")
  {
    if IsAnnouncement(msg) then
      var rest := msg[|PREFIX|..];
      assert msg == PREFIX + rest;
      SplitAnnouncement(rest);
      SplitHead(rest, SEP);
      Some(Split(msg, SEP)[1])
    else
      None
  }

  /** Formatting then parsing gives back an address that has no colon. */
  lemma FormatParseRoundTrip(localIp: string)
    requires SEP !in localIp
    ensures ParseAnnouncement(Announcement(localIp)) == Some(localIp)
  {
    SplitAnnouncement(localIp);
    SplitNoSep(localIp, SEP);
  }

  /** An address with a colon in it (an IPv6 address, say) is cut at its first colon. */
  lemma ParseCutsAtColon(head: string, tail: string)
    requires SEP !in head
    ensures ParseAnnouncement(Announcement(head + [SEP] + tail)) == Some(head)
  {
    SplitAnnouncement(head + [SEP] + tail);
    SplitCons(head, tail, SEP);
  }
}
