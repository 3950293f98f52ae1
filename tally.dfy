/**
 * The streaming tally: read the header and locate the e-mail column, walk the
 * data rows counting the domain of every good row and logging every bad one,
 * then copy the per-domain records into a slice and sort it by domain name.
 */
module Tally {
  import opened Wrappers
  import opened Strings
  import opened Column
  import opened Address
  import opened Stats

  /** One record from the CSV reader: its fields, or why it could not be decoded. */
  datatype Row = Record(fields: seq<string>) | DecodeError(reason: string)

  /** A skipped row as it is logged: its line number and the error. */
  datatype LogEvent = CsvError(line: nat, reason: string) | AddressError(line: nat, reason: string)

  /** What one data row contributes: a domain to count, or a log event. */
  datatype Outcome = Counted(domain: string) | Skipped(event: LogEvent)

  /** The reader's end-of-input error, which is what reading a missing header yields. */
  const EOF := "EOF"

  /** Every decoded row has at least `width` fields. */
  predicate Wide(rows: seq<Row>, width: nat)
  {
    forall k | 0 <= k < |rows| :: rows[k].Record? ==> width <= |rows[k].fields|
  }

  /**
   * What the CSV reader guarantees: a decoded data row is as wide as the
   * header (it rejects rows of another width as decode errors).
   */
  predicate DataRowsFit(input: seq<Row>)
  {
    0 < |input| && input[0].Record? ==> Wide(input[1..], |input[0].fields|)
  }

  /** The e-mail column the header selects, or the fatal error that ends the run. */
  function HeaderColumn(input: seq<Row>): (r: Result<nat>)
    ensures r.Ok? ==> 0 < |input| && input[0].Record? && r.value < |input[0].fields|
  {
    if |input| == 0 then Err(EOF)
    else match input[0]
      case DecodeError(reason) => Err(reason)
      case Record(headings) =>
        match EmailColumn(headings)
        case Some(col) => Ok(col)
        case None => Err(NoEmailColumn)
  }

  /**
   * The fate of the data row the code counts as line `line`: a decode error
   * or an address error is logged under that line, and a good row yields a
   * domain without `@`.
   */
  function Classify(row: Row, line: nat, col: nat, parse: string -> ParseResult): Outcome
    requires row.Record? ==> col < |row.fields|
  {
    match row
    case DecodeError(reason) => Skipped(CsvError(line, reason))
    case Record(fields) =>
      var (domain, err) := ExtractDomain(fields[col], parse);
      if err.Some? then Skipped(AddressError(line, err.value)) else Counted(domain)
  }

  /**
   * A skipped row is logged under the line it was given: a decode error with
   * the reader's reason, a bad address with the extraction error. A good row
   * yields its extracted domain, which has no `@`.
   */
  lemma ClassifyOutcome(row: Row, line: nat, col: nat, parse: string -> ParseResult)
    requires row.Record? ==> col < |row.fields|
    ensures Classify(row, line, col, parse).Skipped? ==> Classify(row, line, col, parse).event.line == line
    ensures row.DecodeError? ==> Classify(row, line, col, parse) == Skipped(CsvError(line, row.reason))
    ensures row.Record? ==>
              (Classify(row, line, col, parse).Skipped? <==> ExtractDomain(row.fields[col], parse).1.Some?)
    ensures Classify(row, line, col, parse).Counted? ==>
              row.Record? && '@' !in Classify(row, line, col, parse).domain
    ensures row.Record? && ExtractDomain(row.fields[col], parse).1.None? ==>
              Classify(row, line, col, parse) == Counted(ExtractDomain(row.fields[col], parse).0)
    ensures row.Record? && ExtractDomain(row.fields[col], parse).1.Some? ==>
              Classify(row, line, col, parse)
                == Skipped(AddressError(line, ExtractDomain(row.fields[col], parse).1.value))
  {
  }

  /**
   * The domains of the good data rows, in input order. The data row at index
   * k (from 0) is record k + 2, which the code logs as its line: the header
   * is record 1.
   */
  function Domains(rows: seq<Row>, col: nat, parse: string -> ParseResult): seq<string>
    requires Wide(rows, col + 1)
  {
    if rows == [] then []
    else
      var prefix := Domains(rows[..|rows| - 1], col, parse);
      match Classify(rows[|rows| - 1], |rows| + 1, col, parse)
      case Counted(d) => prefix + [d]
      case Skipped(_) => prefix
  }

  /** The log events of the bad data rows, in input order. */
  function Log(rows: seq<Row>, col: nat, parse: string -> ParseResult): seq<LogEvent>
    requires Wide(rows, col + 1)
  {
    if rows == [] then []
    else
      var prefix := Log(rows[..|rows| - 1], col, parse);
      match Classify(rows[|rows| - 1], |rows| + 1, col, parse)
      case Counted(_) => prefix
      case Skipped(e) => prefix + [e]
  }

  /** Every data row is either counted or logged, never both, never neither. */
  lemma {:induction false} RowsAccounted(rows: seq<Row>, col: nat, parse: string -> ParseResult)
    requires Wide(rows, col + 1)
    ensures |Domains(rows, col, parse)| + |Log(rows, col, parse)| == |rows|
  {
    if rows != [] {
      RowsAccounted(rows[..|rows| - 1], col, parse);
    }
  }

  /**
   * A skipped row adds its event to the log and nothing to the tally; a
   * counted row adds its domain and nothing to the log.
   */
  lemma RowStep(rows: seq<Row>, row: Row, col: nat, parse: string -> ParseResult)
    requires Wide(rows + [row], col + 1)
    ensures Wide(rows, col + 1) && (row.Record? ==> col < |row.fields|)
    ensures Classify(row, |rows| + 2, col, parse).Skipped? ==>
              TallyOf(Domains(rows + [row], col, parse)) == TallyOf(Domains(rows, col, parse)) &&
              Log(rows + [row], col, parse) == Log(rows, col, parse) + [Classify(row, |rows| + 2, col, parse).event]
    ensures Classify(row, |rows| + 2, col, parse).Counted? ==>
              var d := Classify(row, |rows| + 2, col, parse).domain;
              Domains(rows + [row], col, parse) == Domains(rows, col, parse) + [d] &&
              TallyOf(Domains(rows + [row], col, parse)) == Bump(TallyOf(Domains(rows, col, parse)), d) &&
              Log(rows + [row], col, parse) == Log(rows, col, parse)
  {
    assert (rows + [row])[..|rows|] == rows;
    assert (rows + [row])[|rows|] == row;
    assert forall k | 0 <= k < |rows| :: (rows + [row])[k] == rows[k];
    var ds := Domains(rows, col, parse);
    var o := Classify(row, |rows| + 2, col, parse);
    if o.Counted? {
      assert (ds + [o.domain])[..|ds|] == ds;
    }
  }

  /** Each logged event carries the line of its row (index + 2) and that row's own error. */
  lemma {:induction false} LogNamesItsRow(rows: seq<Row>, col: nat, parse: string -> ParseResult)
    requires Wide(rows, col + 1)
    ensures forall j | 0 <= j < |Log(rows, col, parse)| ::
              2 <= Log(rows, col, parse)[j].line <= |rows| + 1 &&
              Classify(rows[Log(rows, col, parse)[j].line - 2], Log(rows, col, parse)[j].line, col, parse)
                == Skipped(Log(rows, col, parse)[j])
  {
    if rows != [] {
      var prefix := rows[..|rows| - 1];
      LogNamesItsRow(prefix, col, parse);
      var l := Log(rows, col, parse);
      var lp := Log(prefix, col, parse);
      forall j | 0 <= j < |l|
        ensures 2 <= l[j].line <= |rows| + 1
        ensures Classify(rows[l[j].line - 2], l[j].line, col, parse) == Skipped(l[j])
      {
        if j < |lp| {
          assert l[j] == lp[j];
          assert rows[l[j].line - 2] == prefix[l[j].line - 2];
        }
      }
    }
  }

  /** The log lists lines in strictly increasing order. */
  lemma {:induction false} LogAscending(rows: seq<Row>, col: nat, parse: string -> ParseResult)
    requires Wide(rows, col + 1)
    ensures forall i, j | 0 <= i < j < |Log(rows, col, parse)| ::
              Log(rows, col, parse)[i].line < Log(rows, col, parse)[j].line
  {
    if rows != [] {
      var prefix := rows[..|rows| - 1];
      LogAscending(prefix, col, parse);
      LogNamesItsRow(prefix, col, parse);
    }
  }

  /** Every data row that is skipped has its event in the log. */
  lemma {:induction false} SkippedRowsLogged(rows: seq<Row>, col: nat, parse: string -> ParseResult)
    requires Wide(rows, col + 1)
    ensures forall k | 0 <= k < |rows| && Classify(rows[k], k + 2, col, parse).Skipped? ::
              Classify(rows[k], k + 2, col, parse).event in Log(rows, col, parse)
  {
    if rows != [] {
      var prefix := rows[..|rows| - 1];
      SkippedRowsLogged(prefix, col, parse);
      forall k | 0 <= k < |prefix| ensures rows[k] == prefix[k] { }
    }
  }

  /** Every record of the tally sits under its own domain name. */
  predicate KeyedByName(stats: map<string, DomainStats>)
  {
    forall d | d in stats :: stats[d].domainName == d
  }

  /** Adds one address for `domain`, creating its record at the first sighting. */
  function Bump(stats: map<string, DomainStats>, domain: string): (r: map<string, DomainStats>)
  {
    var dc := if domain in stats then stats[domain] else DomainStats(domain, 0);
    stats[domain := dc.(addresses := dc.addresses + 1)]
  }

  /**
   * Bumping a domain adds it as a key if it is new, with one address, or adds
   * one address to its record; every other record is unchanged, and records
   * stay keyed by their names.
   */
  lemma BumpEffect(stats: map<string, DomainStats>, domain: string)
    ensures Bump(stats, domain).Keys == stats.Keys + {domain}
    ensures domain !in stats ==> Bump(stats, domain)[domain] == DomainStats(domain, 1)
    ensures domain in stats ==>
              Bump(stats, domain)[domain] == stats[domain].(addresses := stats[domain].addresses + 1)
    ensures forall d | d in stats && d != domain :: Bump(stats, domain)[d] == stats[d]
    ensures KeyedByName(stats) ==> KeyedByName(Bump(stats, domain))
  {
  }

  /** The tally map after counting `domains` in order, starting from an empty map. */
  function TallyOf(domains: seq<string>): map<string, DomainStats>
  {
    if domains == [] then map[]
    else Bump(TallyOf(domains[..|domains| - 1]), domains[|domains| - 1])
  }

  /**
   * The tally has one record per distinct domain, keyed by its name, holding
   * the number of times the domain occurs.
   */
  lemma {:induction false} TallyOfCounts(domains: seq<string>)
    ensures forall d :: d in TallyOf(domains) <==> d in domains
    ensures forall d | d in TallyOf(domains) :: TallyOf(domains)[d] == DomainStats(d, multiset(domains)[d])
  {
    if domains != [] {
      var prefix := domains[..|domains| - 1];
      TallyOfCounts(prefix);
      assert domains == prefix + [domains[|domains| - 1]];
    }
  }

  /**
   * The domain is the map key exactly as extracted: two spellings that differ
   * only in letter case get separate records.
   */
  lemma DomainCaseKept()
    ensures TallyOf(["Foo.com", "foo.com"]) ==
              map["Foo.com" := DomainStats("Foo.com", 1), "foo.com" := DomainStats("foo.com", 1)]
  {
    assert "Foo.com"[0] != "foo.com"[0];
    assert ["Foo.com", "foo.com"][..1] == ["Foo.com"];
    assert ["Foo.com"][..0] == [];
  }

  /** Some key of a non-empty set. */
  ghost function Pick(keys: set<string>): (k: string)
    requires keys != {}
    ensures k in keys
  {
    var k :| k in keys; k
  }

  /** The sum of the address counts of the records under `keys`. */
  ghost function Total(m: map<string, DomainStats>, keys: set<string>): int
    requires keys <= m.Keys
    decreases keys
  {
    if keys == {} then 0
    else
      var k := Pick(keys);
      m[k].addresses + Total(m, keys - {k})
  }

  lemma {:induction false} TotalRemove(m: map<string, DomainStats>, keys: set<string>, k: string)
    requires keys <= m.Keys && k in keys
    ensures Total(m, keys) == m[k].addresses + Total(m, keys - {k})
    decreases keys
  {
    var j := Pick(keys);
    if j != k {
      TotalRemove(m, keys - {j}, k);
      TotalRemove(m, keys - {k}, j);
      assert keys - {j} - {k} == keys - {k} - {j};
    }
  }

  lemma {:induction false} TotalAgree(m1: map<string, DomainStats>, m2: map<string, DomainStats>, keys: set<string>)
    requires keys <= m1.Keys && keys <= m2.Keys
    requires forall k | k in keys :: m1[k].addresses == m2[k].addresses
    ensures Total(m1, keys) == Total(m2, keys)
    decreases keys
  {
    if keys != {} {
      TotalAgree(m1, m2, keys - {Pick(keys)});
    }
  }

  /** The counts in the tally add up to the number of domains counted. */
  lemma {:induction false} TallyTotal(domains: seq<string>)
    ensures Total(TallyOf(domains), TallyOf(domains).Keys) == |domains|
  {
    if domains != [] {
      var prefix := domains[..|domains| - 1];
      var d := domains[|domains| - 1];
      var m := TallyOf(prefix);
      var m' := TallyOf(domains);
      TallyTotal(prefix);
      TotalRemove(m', m'.Keys, d);
      if d in m {
        assert m'.Keys == m.Keys;
        TotalRemove(m, m.Keys, d);
        TotalAgree(m, m', m.Keys - {d});
      } else {
        assert m'.Keys - {d} == m.Keys;
        TotalAgree(m, m', m.Keys);
      }
    }
  }

  /**
   * The result for the good domains `domains`: strictly ascending by domain
   * name, one record per distinct domain holding its number of occurrences,
   * and the counts add up to the number of good rows.
   */
  ghost predicate IsReport(ds: seq<DomainStats>, domains: seq<string>)
  {
    && StrictlyAscending(ds)
    && (forall k | 0 <= k < |ds| ::
          ds[k].domainName in domains && ds[k].addresses == multiset(domains)[ds[k].domainName])
    && (forall d | d in domains :: DomainStats(d, multiset(domains)[d]) in ds)
    && Sum(ds) == |domains|
  }

  /**
   * A report has no repeated domain and no record with a zero count; with no
   * good rows it is empty.
   */
  lemma ReportShape(ds: seq<DomainStats>, domains: seq<string>)
    requires IsReport(ds, domains)
    ensures forall p, q | 0 <= p < q < |ds| :: ds[p].domainName != ds[q].domainName
    ensures forall k | 0 <= k < |ds| :: 1 <= ds[k].addresses
    ensures domains == [] ==> ds == []
  {
    forall p, q | 0 <= p < q < |ds|
      ensures ds[p].domainName != ds[q].domainName
    {
      LexLessIrreflexive(ds[p].domainName);
    }
  }

  /**
   * The report is determined by the good domains alone, whatever order the
   * tally map hands its records out in: two runs on the same input agree.
   */
  lemma ReportUnique(ds1: seq<DomainStats>, ds2: seq<DomainStats>, domains: seq<string>)
    requires IsReport(ds1, domains) && IsReport(ds2, domains)
    ensures ds1 == ds2
  {
    forall x
      ensures x in ds1 <==> x in ds2
    {
      if x in ds1 {
        var k :| 0 <= k < |ds1| && ds1[k] == x;
      }
      if x in ds2 {
        var k :| 0 <= k < |ds2| && ds2[k] == x;
      }
    }
    AscendingUnique(ds1, ds2);
  }

  /** A sorted sequence of distinct records, each keyed by its own name, is strictly ascending. */
  lemma SortedKeyedAscending(s: seq<DomainStats>, m: map<string, DomainStats>)
    requires Sorted(s) && Distinct(s)
    requires forall x | x in s :: x.domainName in m && m[x.domainName] == x
    ensures StrictlyAscending(s)
  {
    forall p, q | 0 <= p < q < |s|
      ensures LexLess(s[p].domainName, s[q].domainName)
    {
      assert s[p] in s && s[q] in s;
      DistinctAt(s, p, q);
      LexLessTotal(s[p].domainName, s[q].domainName);
    }
  }

  /**
   * The row loop: a line counter, and for each data row either a log event
   * or one more address for its domain.
   */
  method CountRows(rows: seq<Row>, emailColumn: nat, parse: string -> ParseResult)
    returns (stats: map<string, DomainStats>, ghost log: seq<LogEvent>)
    requires Wide(rows, emailColumn + 1)
    ensures stats == TallyOf(Domains(rows, emailColumn, parse))
    ensures log == Log(rows, emailColumn, parse)
  {
    stats, log := map[], [];
    var counter := 1;
    var i := 0;
    while i < |rows|
      invariant 0 <= i <= |rows|
      invariant counter == i + 1
      invariant stats == TallyOf(Domains(rows[..i], emailColumn, parse))
      invariant log == Log(rows[..i], emailColumn, parse)
    {
      counter := counter + 1;
      var row := rows[i];
      assert rows[..i + 1] == rows[..i] + [row];
      RowStep(rows[..i], row, emailColumn, parse);
      i := i + 1;
      match row
      case DecodeError(reason) =>
        log := log + [CsvError(counter, reason)];
      case Record(fields) =>
        var (domain, extractErr) := ExtractDomain(fields[emailColumn], parse);
        if extractErr.Some? {
          log := log + [AddressError(counter, extractErr.value)];
        } else {
          var dc := if domain in stats then stats[domain] else DomainStats(domain, 0);
          stats := stats[domain := dc.(addresses := dc.addresses + 1)];
        }
    }
    assert rows[..i] == rows;
  }

  /**
   * Copies the records of the tally map, in whatever order the map yields
   * them, into a new slice with room for exactly one record per domain.
   */
  method CollectStats(stats: map<string, DomainStats>) returns (ds: array<DomainStats>)
    requires KeyedByName(stats)
    ensures fresh(ds) && ds.Length == |stats|
    ensures forall x | x in ds[..] :: x.domainName in stats && stats[x.domainName] == x
    ensures forall d | d in stats :: stats[d] in ds[..]
    ensures Distinct(ds[..])
    ensures Sum(ds[..]) == Total(stats, stats.Keys)
  {
    ds := new DomainStats[|stats|];
    var n := 0;
    var remaining := stats.Keys;
    while remaining != {}
      invariant remaining <= stats.Keys
      invariant n + |remaining| == |stats| == ds.Length
      invariant forall x | x in ds[..n] ::
                  x.domainName in stats && x.domainName !in remaining && stats[x.domainName] == x
      invariant forall d | d in stats && d !in remaining :: stats[d] in ds[..n]
      invariant Distinct(ds[..n])
      invariant Sum(ds[..n]) + Total(stats, remaining) == Total(stats, stats.Keys)
      decreases remaining
    {
      var d :| d in remaining;
      TotalRemove(stats, remaining, d);
      ghost var prev := ds[..n];
      DistinctAppend(prev, stats[d]);
      ds[n] := stats[d];
      assert ds[..n + 1] == prev + [stats[d]];
      n := n + 1;
      remaining := remaining - {d};
    }
    assert ds[..] == ds[..n];
  }

  /**
   * Reads the header, locates the e-mail column and tallies the domains of the
   * data rows. A missing or undecodable header, or a header without an e-mail
   * column, ends the run with an error and no result; bad data rows are logged
   * (the ghost `log`) and skipped.
   */
  method TallyDomainStats(input: seq<Row>, parse: string -> ParseResult)
    returns (ds: array?<DomainStats>, err: Option<string>, ghost log: seq<LogEvent>)
    requires DataRowsFit(input)
    ensures HeaderColumn(input).Err? ==>
              ds == null && err == Some(HeaderColumn(input).msg) && log == []
    ensures HeaderColumn(input).Ok? ==>
              var col := HeaderColumn(input).value;
              ds != null && err.None? &&
              IsReport(ds[..], Domains(input[1..], col, parse)) &&
              log == Log(input[1..], col, parse) &&
              Sum(ds[..]) + |log| == |input| - 1
  {
    if |input| == 0 {
      return null, Some(EOF), [];
    }
    var headings: seq<string>;
    match input[0]
    case DecodeError(reason) =>
      return null, Some(reason), [];
    case Record(fields) =>
      headings := fields;
    var emailColumn, columnErr := FindEmailColumn(headings);
    if columnErr.Some? {
      return null, columnErr, [];
    }

    var stats;
    stats, log := CountRows(input[1..], emailColumn, parse);
    ghost var domains := Domains(input[1..], emailColumn, parse);
    TallyOfCounts(domains);
    TallyTotal(domains);
    RowsAccounted(input[1..], emailColumn, parse);

    ds := CollectStats(stats);
    ghost var unsorted := ds[..];
    Sort(ds);
    SumPermutation(ds[..], unsorted);
    assert forall x :: x in ds[..] <==> x in unsorted by {
      forall x ensures x in ds[..] <==> x in unsorted {
        assert x in ds[..] <==> x in multiset(ds[..]);
      }
    }
    assert Distinct(ds[..]) by {
      assert multiset(ds[..]) == multiset(unsorted);
    }
    SortedKeyedAscending(ds[..], stats);
    return ds, None, log;
  }
}
