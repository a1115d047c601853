/**
 * The click-log aggregation job.
 *
 * It reads the parsed records of one CDN access log and counts the visits
 * of share links: a record whose URI stem contains `/d/<share id>` is one
 * click on that share on the record's date. Clicks are counted per
 * (share id, date) in an insertion-ordered map keyed by `shareId-date`, and
 * the job returns the map's entries in the order their keys first appeared.
 *
 * Fetching, unzipping and parsing the log are I/O: here the job starts from
 * the sequence of parsed records. The map is the class `ClickDataMap`; the
 * loop is the method `ProcessLogs`, proved against the reference definition
 * `ExpectedClickData`.
 */
module ParseLog {
  import opened Wrappers

  /** The two fields of a parsed log line the job reads. */
  datatype LogRecord = LogRecord(uriStem: string, date: string)

  /** One visit of a share link: the share id and the log line's date. */
  datatype Click = Click(shareId: string, date: string)

  /** One aggregated row: the number of clicks on a share on a date. */
  datatype ClickDatum = ClickDatum(shareId: string, date: string, value: nat)

  predicate Distinct<T(==)>(s: seq<T>)
  {
    forall i, j | 0 <= i < j < |s| :: s[i] != s[j]
  }

  // ---------------------------------------------------------------------
  // Share-id extraction: the first match of `\/d\/(\w+)`.
  // ---------------------------------------------------------------------

  /** `\w` without the unicode flag: `[A-Za-z0-9_]`. */
  function IsWordChar(c: char): (w: bool)
    ensures w ==> c != '-' && c != '/'
  {
    ('a' <= c <= 'z') || ('A' <= c <= 'Z') || ('0' <= c <= '9') || c == '_'
  }

  predicate AllWordChars(s: string)
  {
    forall i | 0 <= i < |s| :: IsWordChar(s[i])
  }

  /** The greedy `\w+`/`\w*` run at the start of `s`: the longest word-character prefix. */
  function WordRun(s: string): (run: string)
    ensures run <= s
    ensures AllWordChars(run)
    ensures |run| < |s| ==> !IsWordChar(s[|run|])
  {
    if s != [] && IsWordChar(s[0]) then [s[0]] + WordRun(s[1..]) else []
  }

  /** The pattern can match at position `i`: `/d/` followed by a word character. */
  function MatchesAt(s: string, i: int): (m: bool)
    ensures m ==> 0 <= i && i + 4 <= |s| && s[i..i + 3] == "/d/" && |WordRun(s[i + 3..])| >= 1
  {
    && 0 <= i
    && i + 4 <= |s|
    && s[i] == '/' && s[i + 1] == 'd' && s[i + 2] == '/'
    && IsWordChar(s[i + 3])
  }

  /**
   * The capture group of the leftmost match: the regular-expression search
   * tries each start position in turn, and the greedy group takes the whole
   * word-character run after `/d/`.
   */
  function ExtractShareId(uri: string): (id: Option<string>)
    ensures id.Some? ==> |id.value| >= 1 && AllWordChars(id.value)
    decreases |uri|
  {
    if |uri| < 4 then None
    else if MatchesAt(uri, 0) then Some(WordRun(uri[3..]))
    else ExtractShareId(uri[1..])
  }

  /** A stem yields no share id exactly when the pattern matches nowhere in it. */
  lemma {:induction false} ExtractNoneExactly(uri: string)
    ensures ExtractShareId(uri).None? <==> forall i :: !MatchesAt(uri, i)
    decreases |uri|
  {
    if |uri| >= 4 && !MatchesAt(uri, 0) {
      ExtractNoneExactly(uri[1..]);
      forall i
        ensures MatchesAt(uri[1..], i) <==> MatchesAt(uri, i + 1)
      {
      }
      if forall i :: !MatchesAt(uri[1..], i) {
        forall i
          ensures !MatchesAt(uri, i)
        {
          assert MatchesAt(uri, i) ==> MatchesAt(uri[1..], i - 1);
        }
      }
    }
  }

  /** When the pattern first matches at `i`, the share id is the word run after that `/d/`. */
  lemma {:induction false} ExtractAtFirstMatch(uri: string, i: int)
    requires MatchesAt(uri, i)
    requires forall j | 0 <= j < i :: !MatchesAt(uri, j)
    ensures ExtractShareId(uri) == Some(WordRun(uri[i + 3..]))
    decreases i
  {
    if i > 0 {
      assert !MatchesAt(uri, 0);
      assert MatchesAt(uri[1..], i - 1);
      forall j | 0 <= j < i - 1
        ensures !MatchesAt(uri[1..], j)
      {
        assert !MatchesAt(uri, j + 1);
      }
      ExtractAtFirstMatch(uri[1..], i - 1);
      assert uri[1..][i - 1 + 3..] == uri[i + 3..];
    }
  }

  // ---------------------------------------------------------------------
  // The aggregation key.
  // ---------------------------------------------------------------------

  /** `match[1] + '-' + data['date']`. */
  function AggregationKey(shareId: string, date: string): (key: string)
    ensures |key| == |shareId| + 1 + |date|
    ensures key[..|shareId|] == shareId && key[|shareId|] == '-' && key[|shareId| + 1..] == date
  {
    shareId + "-" + date
  }

  /**
   * A share id has no `-`, so the key determines the (share id, date) pair:
   * distinct pairs never share a counter.
   */
  lemma KeyInjective(a: Click, b: Click)
    requires AllWordChars(a.shareId) && AllWordChars(b.shareId)
    requires AggregationKey(a.shareId, a.date) == AggregationKey(b.shareId, b.date)
    ensures a == b
  {
    var ka := AggregationKey(a.shareId, a.date);
    var kb := AggregationKey(b.shareId, b.date);
    var n, m := |a.shareId|, |b.shareId|;
    assert forall i | 0 <= i < n :: ka[i] == a.shareId[i] && IsWordChar(ka[i]);
    assert forall i | 0 <= i < m :: kb[i] == b.shareId[i] && IsWordChar(kb[i]);
    assert ka[n] == '-' && kb[m] == '-';
    assert n == m;
    assert a.shareId == ka[..n] == b.shareId;
    assert a.date == ka[n + 1..] == b.date;
  }

  // ---------------------------------------------------------------------
  // The reference definition of the job's result.
  // ---------------------------------------------------------------------

  /** The clicks of a log, in log order: one per record whose stem matches. */
  function Clicks(records: seq<LogRecord>): (hits: seq<Click>)
    ensures |hits| <= |records|
    ensures forall c | c in hits :: |c.shareId| >= 1 && AllWordChars(c.shareId)
  {
    if records == [] then []
    else
      var last := records[|records| - 1];
      var earlier := Clicks(records[..|records| - 1]);
      match ExtractShareId(last.uriStem)
      case None => earlier
      case Some(id) => earlier + [Click(id, last.date)]
  }

  /** The distinct clicks, each at the position of its first occurrence. */
  function FirstSeen(hits: seq<Click>): (order: seq<Click>)
    ensures forall c :: c in order <==> c in hits
    ensures Distinct(order)
    ensures |order| <= |hits|
  {
    if hits == [] then []
    else
      var last := hits[|hits| - 1];
      var earlier := FirstSeen(hits[..|hits| - 1]);
      assert hits == hits[..|hits| - 1] + [last];
      if last in earlier then earlier else earlier + [last]
  }

  /** One row per click of `order`, counting it in `counts`. */
  function Tally(order: seq<Click>, counts: multiset<Click>): (rows: seq<ClickDatum>)
  {
    seq(|order|, i requires 0 <= i < |order| => ClickDatum(order[i].shareId, order[i].date, counts[order[i]]))
  }

  /**
   * What the job returns for a log: one row per distinct (share id, date)
   * in order of first occurrence, each counting that pair's clicks.
   */
  function ExpectedClickData(records: seq<LogRecord>): (clicks: seq<ClickDatum>)
    ensures |clicks| <= |records|
  {
    var hits := Clicks(records);
    Tally(FirstSeen(hits), multiset(hits))
  }

  /** Every row counts at least one click, and its share id is a word-character run. */
  lemma ExpectedRowsWellFormed(records: seq<LogRecord>)
    ensures forall i | 0 <= i < |ExpectedClickData(records)| ::
      ExpectedClickData(records)[i].value >= 1 && AllWordChars(ExpectedClickData(records)[i].shareId)
  {
    var hits := Clicks(records);
    var order := FirstSeen(hits);
    forall i | 0 <= i < |order|
      ensures order[i] in hits && multiset(hits)[order[i]] >= 1
    {
    }
  }

  /** Counting one more click `c` bumps the row of `c` and no other. */
  lemma TallyBump(order: seq<Click>, counts: multiset<Click>, j: int)
    requires Distinct(order) && 0 <= j < |order|
    ensures Tally(order, counts + multiset{order[j]}) ==
      Tally(order, counts)[j := Tally(order, counts)[j].(value := Tally(order, counts)[j].value + 1)]
  {
    var c := order[j];
    var before, after := Tally(order, counts), Tally(order, counts + multiset{c});
    forall i | 0 <= i < |order|
      ensures after[i] == before[j := before[j].(value := before[j].value + 1)][i]
    {
      if i != j {
        assert order[i] != c;
      }
    }
  }

  /** Counting the first click on a new pair adds a row for it at the end. */
  lemma TallyAppend(order: seq<Click>, counts: multiset<Click>, c: Click)
    requires c !in order
    ensures Tally(order + [c], counts + multiset{c}) ==
      Tally(order, counts) + [ClickDatum(c.shareId, c.date, counts[c] + 1)]
  {
    var before, after := Tally(order, counts), Tally(order + [c], counts + multiset{c});
    forall i | 0 <= i < |order|
      ensures after[i] == before[i]
    {
      assert order[i] != c;
    }
  }

  /** The sum of the counters. */
  function TotalValue(data: seq<ClickDatum>): nat
  {
    if data == [] then 0 else TotalValue(data[..|data| - 1]) + data[|data| - 1].value
  }

  // ---------------------------------------------------------------------
  // How one more record changes the result.
  // ---------------------------------------------------------------------

  /** A record whose stem does not match changes nothing. */
  lemma ExpectedAppendUnmatched(records: seq<LogRecord>, r: LogRecord)
    requires ExtractShareId(r.uriStem).None?
    ensures ExpectedClickData(records + [r]) == ExpectedClickData(records)
  {
    assert (records + [r])[..|records|] == records;
  }

  /** Every row is the pair of some click: no row is invented. */
  lemma RowComesFromClick(records: seq<LogRecord>, j: int)
    requires 0 <= j < |ExpectedClickData(records)|
    ensures Click(ExpectedClickData(records)[j].shareId, ExpectedClickData(records)[j].date) in Clicks(records)
  {
    var order := FirstSeen(Clicks(records));
    assert order[j] in order;
  }

  /** A click on a pair already present adds exactly one to that row and changes no other row. */
  lemma ExpectedAppendSeen(records: seq<LogRecord>, r: LogRecord, j: int)
    requires ExtractShareId(r.uriStem).Some?
    requires 0 <= j < |ExpectedClickData(records)|
    requires ExpectedClickData(records)[j].shareId == ExtractShareId(r.uriStem).value
    requires ExpectedClickData(records)[j].date == r.date
    ensures ExpectedClickData(records + [r]) ==
      ExpectedClickData(records)[j := ExpectedClickData(records)[j].(value := ExpectedClickData(records)[j].value + 1)]
  {
    var hits := Clicks(records);
    var order := FirstSeen(hits);
    var c := Click(ExtractShareId(r.uriStem).value, r.date);
    assert (records + [r])[..|records|] == records;
    assert Clicks(records + [r]) == hits + [c];
    assert order[j] == c;
    assert (hits + [c])[..|hits|] == hits;
    assert FirstSeen(hits + [c]) == order;
    assert multiset(hits + [c]) == multiset(hits) + multiset{c};
    TallyBump(order, multiset(hits), j);
  }

  /** A click on a new pair appends a row with count 1 and changes no other row. */
  lemma ExpectedAppendNew(records: seq<LogRecord>, r: LogRecord)
    requires ExtractShareId(r.uriStem).Some?
    requires forall j | 0 <= j < |ExpectedClickData(records)| ::
      !(ExpectedClickData(records)[j].shareId == ExtractShareId(r.uriStem).value && ExpectedClickData(records)[j].date == r.date)
    ensures ExpectedClickData(records + [r]) ==
      ExpectedClickData(records) + [ClickDatum(ExtractShareId(r.uriStem).value, r.date, 1)]
  {
    var hits := Clicks(records);
    var order := FirstSeen(hits);
    var c := Click(ExtractShareId(r.uriStem).value, r.date);
    assert (records + [r])[..|records|] == records;
    assert Clicks(records + [r]) == hits + [c];
    assert forall j | 0 <= j < |order| :: ExpectedClickData(records)[j] == ClickDatum(order[j].shareId, order[j].date, multiset(hits)[order[j]]);
    assert c !in order;
    assert (hits + [c])[..|hits|] == hits;
    assert FirstSeen(hits + [c]) == order + [c];
    assert multiset(hits + [c]) == multiset(hits) + multiset{c};
    TallyAppend(order, multiset(hits), c);
  }

  // ---------------------------------------------------------------------
  // Properties of the result.
  // ---------------------------------------------------------------------

  lemma {:induction false} TotalIncrement(data: seq<ClickDatum>, j: int)
    requires 0 <= j < |data|
    ensures TotalValue(data[j := data[j].(value := data[j].value + 1)]) == TotalValue(data) + 1
  {
    var bumped := data[j := data[j].(value := data[j].value + 1)];
    var n := |data| - 1;
    if j == n {
      assert bumped[..n] == data[..n];
    } else {
      TotalIncrement(data[..n], j);
      assert bumped[..n] == data[..n][j := data[j].(value := data[j].value + 1)];
    }
  }

  lemma TotalAppend(data: seq<ClickDatum>, row: ClickDatum)
    ensures TotalValue(data + [row]) == TotalValue(data) + row.value
  {
    assert (data + [row])[..|data|] == data;
  }

  lemma ClicksAppend(records: seq<LogRecord>, r: LogRecord)
    ensures Clicks(records + [r]) ==
      match ExtractShareId(r.uriStem)
      case None => Clicks(records)
      case Some(id) => Clicks(records) + [Click(id, r.date)]
  {
    assert (records + [r])[..|records|] == records;
  }

  lemma TotalStepSeen(records: seq<LogRecord>, r: LogRecord, j: int)
    requires ExtractShareId(r.uriStem).Some?
    requires 0 <= j < |ExpectedClickData(records)|
    requires ExpectedClickData(records)[j].shareId == ExtractShareId(r.uriStem).value
    requires ExpectedClickData(records)[j].date == r.date
    ensures TotalValue(ExpectedClickData(records + [r])) == TotalValue(ExpectedClickData(records)) + 1
  {
    ExpectedAppendSeen(records, r, j);
    TotalIncrement(ExpectedClickData(records), j);
  }

  lemma TotalStepNew(records: seq<LogRecord>, r: LogRecord)
    requires ExtractShareId(r.uriStem).Some?
    requires forall j | 0 <= j < |ExpectedClickData(records)| ::
      !(ExpectedClickData(records)[j].shareId == ExtractShareId(r.uriStem).value && ExpectedClickData(records)[j].date == r.date)
    ensures TotalValue(ExpectedClickData(records + [r])) == TotalValue(ExpectedClickData(records)) + 1
  {
    ExpectedAppendNew(records, r);
    TotalAppend(ExpectedClickData(records), ClickDatum(ExtractShareId(r.uriStem).value, r.date, 1));
  }

  /** One more record adds one to the total exactly when it is one more click. */
  lemma TotalStep(records: seq<LogRecord>, r: LogRecord)
    ensures TotalValue(ExpectedClickData(records + [r])) - TotalValue(ExpectedClickData(records))
         == |Clicks(records + [r])| - |Clicks(records)|
  {
    ClicksAppend(records, r);
    var before := ExpectedClickData(records);
    match ExtractShareId(r.uriStem)
    case None =>
      ExpectedAppendUnmatched(records, r);
    case Some(id) =>
      if j :| 0 <= j < |before| && before[j].shareId == id && before[j].date == r.date {
        TotalStepSeen(records, r, j);
      } else {
        TotalStepNew(records, r);
      }
  }

  /** The counters add up to the number of matching records. */
  lemma {:induction false} ExpectedTotal(records: seq<LogRecord>)
    ensures TotalValue(ExpectedClickData(records)) == |Clicks(records)|
  {
    if records != [] {
      var n := |records| - 1;
      var earlier, r := records[..n], records[n];
      assert earlier + [r] == records;
      ExpectedTotal(earlier);
      TotalStep(earlier, r);
      assert TotalValue(ExpectedClickData(records)) - TotalValue(ExpectedClickData(earlier)) == |Clicks(records)| - |Clicks(earlier)|;
    }
  }

  /** No two rows have the same key. */
  lemma ExpectedKeysDistinct(records: seq<LogRecord>, i: int, j: int)
    requires 0 <= i < j < |ExpectedClickData(records)|
    ensures AggregationKey(ExpectedClickData(records)[i].shareId, ExpectedClickData(records)[i].date)
         != AggregationKey(ExpectedClickData(records)[j].shareId, ExpectedClickData(records)[j].date)
  {
    var order := FirstSeen(Clicks(records));
    assert order[i] != order[j];
    if AggregationKey(order[i].shareId, order[i].date) == AggregationKey(order[j].shareId, order[j].date) {
      KeyInjective(order[i], order[j]);
    }
  }

  /** Every matching record is counted in the row of its (share id, date). */
  lemma {:induction false} ClickOfMatchingRecord(records: seq<LogRecord>, k: int)
    requires 0 <= k < |records| && ExtractShareId(records[k].uriStem).Some?
    ensures Click(ExtractShareId(records[k].uriStem).value, records[k].date) in Clicks(records)
  {
    var n := |records| - 1;
    if k < n {
      ClickOfMatchingRecord(records[..n], k);
    }
  }

  /** Every matching record has a row, whose counter counts it. */
  lemma MatchingRecordHasRow(records: seq<LogRecord>, k: int)
    requires 0 <= k < |records| && ExtractShareId(records[k].uriStem).Some?
    ensures exists j | 0 <= j < |ExpectedClickData(records)| ::
      && ExpectedClickData(records)[j].shareId == ExtractShareId(records[k].uriStem).value
      && ExpectedClickData(records)[j].date == records[k].date
  {
    var c := Click(ExtractShareId(records[k].uriStem).value, records[k].date);
    ClickOfMatchingRecord(records, k);
    var order := FirstSeen(Clicks(records));
    var j :| 0 <= j < |order| && order[j] == c;
    assert ExpectedClickData(records)[j].shareId == c.shareId;
  }

  /** A click at position `k` of the log is preceded by a click on every earlier row. */
  lemma {:induction false} FirstSeenOrder(hits: seq<Click>, i: int, j: int, k: int)
    requires 0 <= i < j < |FirstSeen(hits)|
    requires 0 <= k < |hits| && hits[k] == FirstSeen(hits)[j]
    ensures FirstSeen(hits)[i] in hits[..k]
  {
    var n := |hits| - 1;
    var earlier := hits[..n];
    var order := FirstSeen(earlier);
    if k < n {
      assert hits[k] in earlier;
      FirstSeenOrder(earlier, i, j, k);
      assert earlier[..k] == hits[..k];
    } else {
      assert order[i] in earlier;
      assert earlier == hits[..k];
    }
  }

  /** Rows come in order of first occurrence in the log. */
  lemma ExpectedInFirstSeenOrder(records: seq<LogRecord>, i: int, j: int, k: int)
    requires 0 <= i < j < |ExpectedClickData(records)|
    requires 0 <= k < |Clicks(records)|
    requires Clicks(records)[k] == Click(ExpectedClickData(records)[j].shareId, ExpectedClickData(records)[j].date)
    ensures Click(ExpectedClickData(records)[i].shareId, ExpectedClickData(records)[i].date) in Clicks(records)[..k]
  {
    var hits := Clicks(records);
    FirstSeenOrder(hits, i, j, k);
  }

  // ---------------------------------------------------------------------
  // The insertion-ordered map and the aggregation loop.
  // ---------------------------------------------------------------------

  /** The values of `entries` listed in the order of `keys`. */
  function InOrder(keys: seq<string>, entries: map<string, ClickDatum>): seq<ClickDatum>
    requires forall k | k in keys :: k in entries
  {
    seq(|keys|, i requires 0 <= i < |keys| => entries[keys[i]])
  }

  /** Overwriting the value of a present key keeps its position. */
  lemma InOrderOverwrite(keys: seq<string>, entries: map<string, ClickDatum>, j: int, datum: ClickDatum)
    requires forall k | k in keys :: k in entries
    requires Distinct(keys) && 0 <= j < |keys|
    ensures InOrder(keys, entries[keys[j] := datum]) == InOrder(keys, entries)[j := datum]
  {
    var before, after := InOrder(keys, entries), InOrder(keys, entries[keys[j] := datum]);
    forall i | 0 <= i < |keys|
      ensures after[i] == before[j := datum][i]
    {
      if i != j {
        assert keys[i] != keys[j];
      }
    }
  }

  /** Setting a new key appends its value. */
  lemma InOrderInsert(keys: seq<string>, entries: map<string, ClickDatum>, key: string, datum: ClickDatum)
    requires forall k | k in keys :: k in entries
    requires key !in keys
    ensures InOrder(keys + [key], entries[key := datum]) == InOrder(keys, entries) + [datum]
  {
    var before, after := InOrder(keys, entries), InOrder(keys + [key], entries[key := datum]);
    forall i | 0 <= i < |keys|
      ensures after[i] == before[i]
    {
      assert keys[i] != key;
    }
  }

  /** Every entry is stored under the key of its own (share id, date). */
  ghost predicate KeyedByClick(entries: map<string, ClickDatum>)
  {
    forall k | k in entries :: k == AggregationKey(entries[k].shareId, entries[k].date)
  }

  lemma KeyedAfterSet(entries: map<string, ClickDatum>, key: string, datum: ClickDatum)
    requires KeyedByClick(entries)
    requires key == AggregationKey(datum.shareId, datum.date)
    ensures KeyedByClick(entries[key := datum])
  {
  }

  /**
   * The loop step for a click whose key is present at position `j`: bumping
   * that entry keeps the map in step with the reference definition.
   */
  lemma StepSeen(prefix: seq<LogRecord>, data: LogRecord, keys: seq<string>, entries: map<string, ClickDatum>, j: int)
    requires forall k :: k in entries <==> k in keys
    requires Distinct(keys) && KeyedByClick(entries)
    requires InOrder(keys, entries) == ExpectedClickData(prefix)
    requires ExtractShareId(data.uriStem).Some?
    requires 0 <= j < |keys| && keys[j] == AggregationKey(ExtractShareId(data.uriStem).value, data.date)
    ensures KeyedByClick(entries[keys[j] := entries[keys[j]].(value := entries[keys[j]].value + 1)])
    ensures InOrder(keys, entries[keys[j] := entries[keys[j]].(value := entries[keys[j]].value + 1)])
         == ExpectedClickData(prefix + [data])
  {
    var before := InOrder(keys, entries);
    var bumped := entries[keys[j]].(value := entries[keys[j]].value + 1);
    assert before[j] == entries[keys[j]];
    ExpectedRowsWellFormed(prefix);
    KeyInjective(Click(before[j].shareId, before[j].date), Click(ExtractShareId(data.uriStem).value, data.date));
    ExpectedAppendSeen(prefix, data, j);
    KeyedAfterSet(entries, keys[j], bumped);
    InOrderOverwrite(keys, entries, j, bumped);
  }

  /** The loop step for a click whose key is absent: appending a count of 1 keeps the map in step. */
  lemma StepNew(prefix: seq<LogRecord>, data: LogRecord, keys: seq<string>, entries: map<string, ClickDatum>)
    requires forall k :: k in entries <==> k in keys
    requires KeyedByClick(entries)
    requires InOrder(keys, entries) == ExpectedClickData(prefix)
    requires ExtractShareId(data.uriStem).Some?
    requires AggregationKey(ExtractShareId(data.uriStem).value, data.date) !in entries
    ensures var key := AggregationKey(ExtractShareId(data.uriStem).value, data.date);
      && KeyedByClick(entries[key := ClickDatum(ExtractShareId(data.uriStem).value, data.date, 1)])
      && InOrder(keys + [key], entries[key := ClickDatum(ExtractShareId(data.uriStem).value, data.date, 1)])
         == ExpectedClickData(prefix + [data])
  {
    var id := ExtractShareId(data.uriStem).value;
    var key := AggregationKey(id, data.date);
    var before := InOrder(keys, entries);
    forall j | 0 <= j < |before|
      ensures !(before[j].shareId == id && before[j].date == data.date)
    {
      assert keys[j] in entries;
    }
    ExpectedAppendNew(prefix, data);
    KeyedAfterSet(entries, key, ClickDatum(id, data.date, 1));
    InOrderInsert(keys, entries, key, ClickDatum(id, data.date, 1));
  }

  /** A JavaScript `Map` from aggregation key to row, which remembers insertion order. */
  class ClickDataMap {
    var keys: seq<string>
    var entries: map<string, ClickDatum>

    ghost predicate Valid()
      reads this
    {
      && (forall k :: k in entries <==> k in keys)
      && Distinct(keys)
    }

    constructor ()
      ensures Valid() && keys == [] && entries == map[]
    {
      keys := [];
      entries := map[];
    }

    /** `Map.get`: the value under the key, or `undefined`. */
    function Get(key: string): (datum: Option<ClickDatum>)
      reads this
      ensures datum.None? <==> key !in entries
      ensures datum.Some? ==> datum.value == entries[key]
    {
      if key in entries then Some(entries[key]) else None
    }

    /** A new key goes to the end of the order; an existing key keeps its place. */
    method Set(key: string, datum: ClickDatum)
      requires Valid()
      modifies this
      ensures Valid()
      ensures entries == old(entries)[key := datum]
      ensures keys == if key in old(entries) then old(keys) else old(keys) + [key]
    {
      if key !in entries {
        keys := keys + [key];
      }
      entries := entries[key := datum];
    }

    /** `Array.from(map.values())`: the rows in insertion order. */
    function Values(): (values: seq<ClickDatum>)
      reads this
      requires Valid()
      ensures |values| == |keys|
      ensures forall i | 0 <= i < |keys| :: values[i] == entries[keys[i]]
    {
      InOrder(keys, entries)
    }
  }

  /** The job: count the clicks of every (share id, date) in one pass over the log. */
  method ProcessLogs(records: seq<LogRecord>) returns (clicks: seq<ClickDatum>)
    ensures clicks == ExpectedClickData(records)
  {
    var clickData := new ClickDataMap();
    var i := 0;
    while i < |records|
      invariant 0 <= i <= |records|
      invariant clickData.Valid()
      invariant KeyedByClick(clickData.entries)
      invariant clickData.Values() == ExpectedClickData(records[..i])
    {
      var data := records[i];
      assert records[..i + 1] == records[..i] + [data];
      ghost var keys, entries := clickData.keys, clickData.entries;
      var found := ExtractShareId(data.uriStem);
      if found.Some? {
        var key := AggregationKey(found.value, data.date);
        var clickDatum := clickData.Get(key);
        if clickDatum.Some? {
          ghost var j :| 0 <= j < |keys| && keys[j] == key;
          StepSeen(records[..i], data, keys, entries, j);
          clickData.Set(key, clickDatum.value.(value := clickDatum.value.value + 1));
        } else {
          StepNew(records[..i], data, keys, entries);
          clickData.Set(key, ClickDatum(found.value, data.date, 1));
        }
      } else {
        ExpectedAppendUnmatched(records[..i], data);
      }
      i := i + 1;
    }
    assert records[..i] == records;
    clicks := clickData.Values();
  }
}
