/**
  The access-point inventory: one `nmcli -t -f SSID,SIGNAL,SECURITY,RATE,BARS
  device wifi list` output line becomes a `Network` record, and the records of
  one scan are folded into a map keyed by SSID in which the record with the
  greatest signal text wins and the first one seen wins a tie.
*/
module Networks {
  import opened Wrappers
  import opened Text
  import opened SignalOrder

  /** One access point, every column kept as the text nmcli printed. */
  datatype Network = Network(ssid: string, signal: string, security: string, rate: string, bars: string)

  /** The five columns of a record, in nmcli's order. */
  function Columns(n: Network): seq<string>
  {
    [n.ssid, n.signal, n.security, n.rate, n.bars]
  }

  /** The line nmcli prints for a record (terse mode, no escaping). */
  function ToNmcliLine(n: Network): string
  {
    Join(Columns(n))
  }

  /**
    `Network::from_nmcli_line`: reject a line with fewer than five fields or an
    empty SSID, otherwise copy the first five fields.
  */
  function FromNmcliLine(line: string): (r: Option<Network>)
    ensures r.None? <==> Count(line) < 4 || line == "" || line[0] == SEP
    ensures r.Some? ==> r.value.ssid != "" && forall i :: 0 <= i < 5 ==> SEP !in Columns(r.value)[i]
  {
    var fields := Split(line);
    SplitFirstEmpty(line);
    if |fields| < 5 || fields[0] == "" then None
    else Some(Network(fields[0], fields[1], fields[2], fields[3], fields[4]))
  }

  /**
    A record whose columns hold no colon and whose SSID is not empty is read
    back from its own line, whatever further fields follow it.
  */
  lemma ParseLine(n: Network, rest: string)
    requires n.ssid != ""
    requires forall i :: 0 <= i < 5 ==> SEP !in Columns(n)[i]
    requires rest == "" || rest[0] == SEP
    ensures FromNmcliLine(ToNmcliLine(n) + rest) == Some(n)
  {
    var cols := Columns(n);
    var line := ToNmcliLine(n) + rest;
    SplitJoin(cols);
    if rest != "" {
      assert rest == [SEP] + rest[1..];
      assert line == ToNmcliLine(n) + [SEP] + rest[1..];
      SplitAppend(ToNmcliLine(n), rest[1..]);
      assert Split(line)[..5] == cols;
    } else {
      assert line == ToNmcliLine(n);
    }
  }

  /**
    Every accepted line starts with the line of the record it yields, followed
    by nothing or by a colon: the five fields are taken verbatim.
  */
  lemma AcceptedLineShape(line: string)
    requires FromNmcliLine(line).Some?
    ensures var prefix := ToNmcliLine(FromNmcliLine(line).value);
      |prefix| <= |line| && line[..|prefix|] == prefix && (|prefix| == |line| || line[|prefix|] == SEP)
  {
    var fields := Split(line);
    var n := FromNmcliLine(line).value;
    assert fields[..5] == Columns(n);
    JoinSplit(line);
    if |fields| > 5 {
      assert fields == fields[..5] + fields[5..];
      JoinAppend(fields[..5], fields[5..]);
      assert line == ToNmcliLine(n) + [SEP] + Join(fields[5..]);
    } else {
      assert fields == Columns(n);
    }
  }

  /** A hidden network (empty SSID) is dropped. */
  lemma HiddenExample()
    ensures FromNmcliLine(":80:WPA2:54Mbit/s:\U{2582}\U{2584}  ").None?
  {
  }

  /** A named network with exactly five fields is kept, field by field. */
  lemma CafeExample()
    ensures FromNmcliLine("CafeWifi:45:WPA2:54Mbit/s:\U{2582}\U{2584}")
         == Some(Network("CafeWifi", "45", "WPA2", "54Mbit/s", "\U{2582}\U{2584}"))
  {
    var n := Network("CafeWifi", "45", "WPA2", "54Mbit/s", "\U{2582}\U{2584}");
    assert ToNmcliLine(n) == "CafeWifi:45:WPA2:54Mbit/s:\U{2582}\U{2584}";
    ParseLine(n, "");
    assert ToNmcliLine(n) + "" == ToNmcliLine(n);
  }

  /**
    The body of the loop in `get_networks` for an accepted record: insert it
    under its SSID if absent, replace the kept record only if the new signal
    text is strictly greater.
  */
  function Merge(m: map<string, Network>, n: Network): (r: map<string, Network>)
    ensures r.Keys == m.Keys + {n.ssid}
    ensures forall k :: k in m && k != n.ssid ==> r[k] == m[k]
    ensures r[n.ssid] == n || (n.ssid in m && r[n.ssid] == m[n.ssid])
    ensures Leq(n.signal, r[n.ssid].signal)
    ensures n.ssid in m ==> Leq(m[n.ssid].signal, r[n.ssid].signal)
    ensures n.ssid in m && r[n.ssid] != m[n.ssid] ==> Less(m[n.ssid].signal, n.signal)
    ensures (forall k :: k in m ==> m[k].ssid == k) ==> (forall k :: k in r ==> r[k].ssid == k)
  {
    LessIrreflexive(n.signal);
    if n.ssid !in m then m[n.ssid := n]
    else if Less(m[n.ssid].signal, n.signal) then
      LessAsymmetric(m[n.ssid].signal, n.signal);
      m[n.ssid := n]
    else
      LessIrreflexive(m[n.ssid].signal);
      m
  }

  /** The map `get_networks` has built after reading `lines` in order. */
  function Scan(lines: seq<string>): (r: map<string, Network>)
    ensures forall k :: k in r ==> r[k].ssid == k
  {
    if lines == [] then map[]
    else
      var m := Scan(lines[..|lines| - 1]);
      match FromNmcliLine(lines[|lines| - 1])
      case None => m
      case Some(n) => Merge(m, n)
  }

  /** The records of the accepted lines, in input order. */
  function Accepted(lines: seq<string>): (recs: seq<Network>)
    ensures forall n :: n in recs ==> exists line :: line in lines && FromNmcliLine(line) == Some(n)
    ensures forall line :: line in lines && FromNmcliLine(line).Some? ==> FromNmcliLine(line).value in recs
  {
    if lines == [] then []
    else
      var recs := Accepted(lines[..|lines| - 1]);
      assert lines == lines[..|lines| - 1] + [lines[|lines| - 1]];
      match FromNmcliLine(lines[|lines| - 1])
      case None => recs
      case Some(n) => recs + [n]
  }

  /** Some record in `recs` has SSID `k`. */
  ghost predicate HasSsid(recs: seq<Network>, k: string)
  {
    exists i :: 0 <= i < |recs| && recs[i].ssid == k
  }

  lemma HasSsidAppend(recs: seq<Network>, n: Network, k: string)
    ensures HasSsid(recs + [n], k) <==> HasSsid(recs, k) || n.ssid == k
  {
    var recs' := recs + [n];
    if HasSsid(recs, k) {
      var i :| 0 <= i < |recs| && recs[i].ssid == k;
      assert recs'[i].ssid == k;
    }
    if n.ssid == k {
      assert recs'[|recs|].ssid == k;
    }
    if HasSsid(recs', k) {
      var i :| 0 <= i < |recs'| && recs'[i].ssid == k;
      if i < |recs| {
        assert recs[i].ssid == k;
      }
    }
  }

  /**
    `recs[i]` is the record kept for SSID `k`: it has that SSID, its signal is
    at least that of every record with the SSID, and every earlier record with
    the SSID has a strictly smaller signal (the first maximum).
  */
  ghost predicate KeptAt(recs: seq<Network>, k: string, i: int)
  {
    && 0 <= i < |recs|
    && recs[i].ssid == k
    && (forall j :: 0 <= j < |recs| && recs[j].ssid == k ==> Leq(recs[j].signal, recs[i].signal))
    && (forall j :: 0 <= j < i && recs[j].ssid == k ==> Less(recs[j].signal, recs[i].signal))
  }

  /** At most one record can be the kept one. */
  lemma KeptAtUnique(recs: seq<Network>, k: string, i: int, i': int)
    requires KeptAt(recs, k, i) && KeptAt(recs, k, i')
    ensures i == i'
  {
  }

  /**
    `m` sums up `recs` for SSID `k`: it has an entry for `k` exactly when some
    record has that SSID, and the entry is the record kept for it.
  */
  ghost predicate Summarizes(m: map<string, Network>, recs: seq<Network>, k: string)
  {
    && (k in m <==> HasSsid(recs, k))
    && (k in m ==> exists i :: KeptAt(recs, k, i) && m[k] == recs[i])
  }

  /** A record with a strictly greater signal than the kept one becomes the kept one. */
  lemma KeptAtReplaced(recs: seq<Network>, k: string, i: int, n: Network)
    requires KeptAt(recs, k, i) && n.ssid == k && Less(recs[i].signal, n.signal)
    ensures KeptAt(recs + [n], k, |recs|)
  {
    var recs' := recs + [n];
    forall j | 0 <= j < |recs| && recs[j].ssid == k
      ensures Less(recs'[j].signal, n.signal) && Leq(recs'[j].signal, n.signal)
    {
      LeqLessTransitive(recs[j].signal, recs[i].signal, n.signal);
      LessAsymmetric(recs[j].signal, n.signal);
    }
    LessIrreflexive(n.signal);
  }

  /** A record that does not beat the kept one leaves it kept. */
  lemma KeptAtKept(recs: seq<Network>, k: string, i: int, n: Network)
    requires KeptAt(recs, k, i) && (n.ssid == k ==> !Less(recs[i].signal, n.signal))
    ensures KeptAt(recs + [n], k, i)
  {
  }

  /** The first record with a new SSID is the kept one. */
  lemma KeptAtFirst(recs: seq<Network>, k: string, n: Network)
    requires !HasSsid(recs, k) && n.ssid == k
    ensures KeptAt(recs + [n], k, |recs|)
  {
    LessIrreflexive(n.signal);
  }

  /** One more record merged into the map keeps it a summary of the records read. */
  lemma MergeStep(m: map<string, Network>, recs: seq<Network>, n: Network, k: string)
    requires Summarizes(m, recs, k)
    ensures Summarizes(Merge(m, n), recs + [n], k)
  {
    var recs', m' := recs + [n], Merge(m, n);
    HasSsidAppend(recs, n, k);
    if k in m {
      var i :| KeptAt(recs, k, i) && m[k] == recs[i];
      if n.ssid == k && Less(m[k].signal, n.signal) {
        KeptAtReplaced(recs, k, i, n);
        assert m'[k] == recs'[|recs|];
      } else {
        KeptAtKept(recs, k, i, n);
        assert m'[k] == recs'[i];
      }
    } else if n.ssid == k {
      KeptAtFirst(recs, k, n);
      assert m'[k] == recs'[|recs|];
    }
  }

  /**
    What the fold computes: an SSID has an entry exactly when some accepted
    line carries it, and the entry is the first accepted record with the
    greatest signal text among those with that SSID.
  */
  lemma {:induction false} ScanEntry(lines: seq<string>, k: string)
    ensures k in Scan(lines) <==> HasSsid(Accepted(lines), k)
    ensures k in Scan(lines) ==> exists i :: KeptAt(Accepted(lines), k, i) && Scan(lines)[k] == Accepted(lines)[i]
  {
    if lines != [] {
      var init := lines[..|lines| - 1];
      ScanEntry(init, k);
      match FromNmcliLine(lines[|lines| - 1])
      case None =>
      case Some(n) =>
        MergeStep(Scan(init), Accepted(init), n, k);
    }
  }

  /**
    Lines rejected by the parser contribute nothing: two inputs whose accepted
    records agree give the same map.
  */
  lemma ScanDependsOnlyOnAccepted(a: seq<string>, b: seq<string>)
    requires Accepted(a) == Accepted(b)
    ensures Scan(a) == Scan(b)
  {
    forall k | k in Scan(a) || k in Scan(b)
      ensures k in Scan(a) && k in Scan(b) && Scan(a)[k] == Scan(b)[k]
    {
      ScanEntry(a, k);
      ScanEntry(b, k);
      var recs := Accepted(a);
      var i :| KeptAt(recs, k, i) && Scan(a)[k] == recs[i];
      var i' :| KeptAt(recs, k, i') && Scan(b)[k] == recs[i'];
      KeptAtUnique(recs, k, i, i');
    }
  }

  /**
    `s` lists the values of `m`, each once, in some order: what
    `into_values().collect()` yields from a map whose values are keyed by
    their own SSID.
  */
  ghost predicate Lists(s: seq<Network>, m: map<string, Network>)
  {
    && |s| == |m|
    && (forall i, j :: 0 <= i < j < |s| ==> s[i].ssid != s[j].ssid)
    && (forall i :: 0 <= i < |s| ==> s[i].ssid in m && m[s[i].ssid] == s[i])
    && (forall k :: k in m ==> exists i :: 0 <= i < |s| && s[i].ssid == k)
  }

  lemma {:induction false} DistinctOnce(s: seq<Network>, x: Network)
    requires forall i, j :: 0 <= i < j < |s| ==> s[i].ssid != s[j].ssid
    ensures multiset(s)[x] == if x in s then 1 else 0
  {
    if s != [] {
      assert s == [s[0]] + s[1..];
      DistinctOnce(s[1..], x);
      if x == s[0] {
        assert x !in s[1..] by {
          forall j | 0 <= j < |s[1..]| ensures s[1..][j] != x {
            assert s[j + 1].ssid != s[0].ssid;
          }
        }
      }
    }
  }

  /**
    The values of a map are listed in the same way up to order: two listings
    are permutations of each other.
  */
  lemma ListsUpToOrder(s: seq<Network>, t: seq<Network>, m: map<string, Network>)
    requires Lists(s, m) && Lists(t, m)
    ensures multiset(s) == multiset(t)
  {
    forall x
      ensures multiset(s)[x] == multiset(t)[x]
    {
      DistinctOnce(s, x);
      DistinctOnce(t, x);
      if x in s {
        var i :| 0 <= i < |s| && s[i] == x;
        var j :| 0 <= j < |t| && t[j].ssid == x.ssid;
      }
      if x in t {
        var j :| 0 <= j < |t| && t[j] == x;
        var i :| 0 <= i < |s| && s[i].ssid == x.ssid;
      }
    }
  }

  /**
    What a listing of the scanned map holds: one record per SSID of an
    accepted line, each the first accepted record with the greatest signal
    text for its SSID.
  */
  lemma ListedInventory(out: seq<Network>, lines: seq<string>)
    requires Lists(out, Scan(lines))
    ensures forall i, j :: 0 <= i < j < |out| ==> out[i].ssid != out[j].ssid
    ensures forall k :: HasSsid(Accepted(lines), k) <==> exists i :: 0 <= i < |out| && out[i].ssid == k
    ensures forall i :: 0 <= i < |out| ==>
      exists j :: KeptAt(Accepted(lines), out[i].ssid, j) && out[i] == Accepted(lines)[j]
  {
    forall k
      ensures HasSsid(Accepted(lines), k) <==> exists i :: 0 <= i < |out| && out[i].ssid == k
    {
      ScanEntry(lines, k);
    }
    forall i | 0 <= i < |out|
      ensures exists j :: KeptAt(Accepted(lines), out[i].ssid, j) && out[i] == Accepted(lines)[j]
    {
      ScanEntry(lines, out[i].ssid);
    }
  }

  /** A record's own five-field line parses back to it. */
  lemma ParseOwnLine(n: Network)
    requires n.ssid != ""
    requires forall i :: 0 <= i < 5 ==> SEP !in Columns(n)[i]
    ensures FromNmcliLine(ToNmcliLine(n)) == Some(n)
  {
    ParseLine(n, "");
    assert ToNmcliLine(n) + "" == ToNmcliLine(n);
  }

  /** Scanning two accepted lines merges their records in order. */
  lemma ScanTwo(l1: string, l2: string, a: Network, b: Network)
    requires FromNmcliLine(l1) == Some(a) && FromNmcliLine(l2) == Some(b)
    ensures Scan([l1, l2]) == Merge(map[a.ssid := a], b)
  {
    assert [l1, l2][..1] == [l1] && [l1][..0] == [];
    assert Scan([l1]) == Merge(map[], a);
    assert Merge(map[], a) == map[a.ssid := a];
  }

  /**
    Duplicates resolved as the code does it: the greater signal TEXT wins, so
    a line with signal "9" replaces an earlier one with signal "45".
  */
  lemma TextualSignalWins(a: Network, b: Network)
    requires a.ssid == b.ssid != ""
    requires forall i :: 0 <= i < 5 ==> SEP !in Columns(a)[i] && SEP !in Columns(b)[i]
    requires a.signal == "45" && b.signal == "9"
    ensures Scan([ToNmcliLine(a), ToNmcliLine(b)]) == map[a.ssid := b]
  {
    ParseOwnLine(a);
    ParseOwnLine(b);
    ScanTwo(ToNmcliLine(a), ToNmcliLine(b), a, b);
    NotNumeric();
  }

  /** On equal signal text the record of the first line read is kept. */
  lemma TieKeepsFirst(a: Network, b: Network)
    requires a.ssid == b.ssid != ""
    requires forall i :: 0 <= i < 5 ==> SEP !in Columns(a)[i] && SEP !in Columns(b)[i]
    requires a.signal == b.signal
    ensures Scan([ToNmcliLine(a), ToNmcliLine(b)]) == map[a.ssid := a]
  {
    ParseOwnLine(a);
    ParseOwnLine(b);
    ScanTwo(ToNmcliLine(a), ToNmcliLine(b), a, b);
    LessIrreflexive(a.signal);
  }

  /**
    `get_networks` with the output of nmcli given as its lines: fold the
    accepted records into a map keyed by SSID, then collect the map's values
    in an unspecified order.
  */
  method GetNetworks(lines: seq<string>) returns (r: Result<seq<Network>, string>)
    ensures r.Ok? && Lists(r.value, Scan(lines))
  {
    var networksMap: map<string, Network> := map[];
    var i := 0;
    while i < |lines|
      invariant 0 <= i <= |lines|
      invariant networksMap == Scan(lines[..i])
    {
      assert lines[..i + 1][..i] == lines[..i];
      var parsed := FromNmcliLine(lines[i]);
      if parsed.Some? {
        var network := parsed.value;
        if network.ssid in networksMap {
          if Less(networksMap[network.ssid].signal, network.signal) {
            networksMap := networksMap[network.ssid := network];
          }
        } else {
          networksMap := networksMap[network.ssid := network];
        }
      }
      i := i + 1;
    }
    assert lines[..i] == lines;
    ghost var m := networksMap;
    var values: seq<Network> := [];
    var pending := networksMap.Keys;
    while pending != {}
      invariant pending <= m.Keys
      invariant |values| + |pending| == |m|
      invariant forall i, j :: 0 <= i < j < |values| ==> values[i].ssid != values[j].ssid
      invariant forall i :: 0 <= i < |values| ==> values[i].ssid in m - pending && m[values[i].ssid] == values[i]
      invariant forall k :: k in m - pending ==> exists i :: 0 <= i < |values| && values[i].ssid == k
      decreases |pending|
    {
      var k :| k in pending;
      ghost var before, waiting := values, pending;
      values := values + [networksMap[k]];
      pending := pending - {k};
      forall k' | k' in m - pending
        ensures exists i :: 0 <= i < |values| && values[i].ssid == k'
      {
        if k' == k {
          assert values[|before|].ssid == k';
        } else {
          assert k' in m - waiting;
          var i :| 0 <= i < |before| && before[i].ssid == k';
          assert values[i].ssid == k';
        }
      }
    }
    assert m - pending == m;
    r := Ok(values);
  }
}
