/** The merge stage: user-id normalisation of the extracted rows, the
    whitespace cleanup of the personnel rows, and the left outer join of the
    former onto the latter. The personnel table, which the source fetches from
    the database, is a parameter here. */
module OracleMerger {
  import opened Options
  import opened Text
  import ListenerLogParser

  type LogRecord = ListenerLogParser.LogRecord

  // ---------------------------------------------------------------------
  // extract_user_id
  // ---------------------------------------------------------------------

  predicate IsDigit(c: char)
  {
    '0' <= c <= '9'
  }

  predicate AllDigits(s: string)
  {
    forall i :: 0 <= i < |s| ==> IsDigit(s[i])
  }

  /** The regex `\d{6}$` finds a match in `s`: the string ends in six digits.
      (The only place the match can start is six characters before the end.) */
  predicate EndsInSixDigits(s: string)
  {
    |s| >= 6 && forall i :: |s| - 6 <= i < |s| ==> IsDigit(s[i])
  }

  /** `extract_user_id`: the last six characters when the string ends in six
      digits, the string itself otherwise, and missing stays missing. */
  function ExtractUserId(u: Option<string>): (r: Option<string>)
    ensures r.None? <==> u.None?
  {
    match u
    case None => None
    case Some(s) => if EndsInSixDigits(s) then Some(s[|s| - 6..]) else u
  }

  /** The result is a suffix of the input; it is a six-digit string exactly
      when the input ends in six digits, and otherwise the input unchanged. */
  lemma ExtractUserIdSpec(s: string)
    ensures var r := ExtractUserId(Some(s)).value;
      |r| <= |s| && r == s[|s| - |r|..] &&
      (EndsInSixDigits(s) <==> |r| == 6 && AllDigits(r)) &&
      (!EndsInSixDigits(s) ==> r == s)
  {
  }

  /** Normalising twice is normalising once; a value that changed is a six-digit id. */
  lemma ExtractUserIdIdempotent(u: Option<string>)
    ensures ExtractUserId(ExtractUserId(u)) == ExtractUserId(u)
    ensures ExtractUserId(u) != u ==> |ExtractUserId(u).value| == 6 && AllDigits(ExtractUserId(u).value)
  {
  }

  lemma ExtractUserIdExamples()
    ensures ExtractUserId(Some("abc123456")) == Some("123456")
    ensures ExtractUserId(Some("jdoe000123")) == Some("000123")
    ensures ExtractUserId(Some("1234567")) == Some("234567")
    ensures ExtractUserId(Some("123")) == Some("123")
    ensures ExtractUserId(Some("abc12x456")) == Some("abc12x456")
    ensures ExtractUserId(None) == None
  {
    assert EndsInSixDigits("abc123456");
    assert "abc123456"[3..] == "123456";
    assert EndsInSixDigits("jdoe000123");
    assert "jdoe000123"[4..] == "000123";
    assert EndsInSixDigits("1234567");
    assert "1234567"[1..] == "234567";
    assert !IsDigit("abc12x456"[5]);
  }

  /** `process_listener_log`: a new table with the same rows in the same order,
      HOST as it was and USER normalised. */
  function ProcessListenerLog(rows: seq<LogRecord>): (r: seq<LogRecord>)
    ensures |r| == |rows|
    ensures forall i :: 0 <= i < |rows| ==>
              r[i].host == rows[i].host && r[i].user == ExtractUserId(rows[i].user)
  {
    if rows == [] then []
    else [rows[0].(user := ExtractUserId(rows[0].user))] + ProcessListenerLog(rows[1..])
  }

  // ---------------------------------------------------------------------
  // The cleanup in get_personal_info
  // ---------------------------------------------------------------------

  /** One row of the personnel query: cd_person, nm_person_last_n,
      nm_person_first_n, nm_workshop, no_extension1, nm_mail_address1. */
  datatype Person = Person(
    cdPerson: Option<string>,
    lastName: Option<string>,
    firstName: Option<string>,
    workshop: Option<string>,
    extension1: Option<string>,
    mailAddress1: Option<string>)

  /** A cell after `df[col].str.strip()`. */
  function StripCell(v: Option<string>): (r: Option<string>)
    ensures r.None? <==> v.None?
  {
    match v
    case None => None
    case Some(s) => Some(Strip(s))
  }

  /** A cell after `df.replace(r'^\s*$', pd.NA, regex=True)`: a string made of
      whitespace only, the empty string included, becomes missing. */
  function BlankToMissing(v: Option<string>): (r: Option<string>)
    ensures r.None? <==> v.None? || AllSpace(v.value)
    ensures r.Some? ==> r == v
  {
    if v.Some? && AllSpace(v.value) then None else v
  }

  /** No leading or trailing whitespace, and not empty. */
  predicate Trimmed(s: string)
  {
    s != [] && !IsSpace(s[0]) && !IsSpace(s[|s| - 1])
  }

  /** The two cleanup passes applied to one cell. */
  function CleanCell(v: Option<string>): (r: Option<string>)
    ensures r.Some? ==> Trimmed(r.value)
    ensures r.None? <==> v.None? || AllSpace(v.value)
    ensures r.Some? ==> r.value == Strip(v.value)
  {
    if v.Some? then
      StripSpec(v.value);
      BlankToMissing(StripCell(v))
    else
      BlankToMissing(StripCell(v))
  }

  lemma CleanCellIdempotent(v: Option<string>)
    ensures CleanCell(CleanCell(v)) == CleanCell(v)
  {
  }

  lemma CleanCellExamples()
    ensures CleanCell(Some("   ")) == None
    ensures CleanCell(Some("")) == None
    ensures CleanCell(Some(" Doe ")) == Some("Doe")
  {
    assert AllSpace("   ");
    assert !AllSpace(" Doe ") by {
      assert !IsSpace(" Doe "[1]);
    }
    assert TrimStart(" Doe ") == TrimStart("Doe ") == "Doe ";
    assert "Doe "[..3] == "Doe";
    assert TrimEnd("Doe ") == TrimEnd("Doe") == "Doe";
  }

  function CleanPerson(p: Person): (r: Person)
    ensures IsClean(r)
  {
    Person(CleanCell(p.cdPerson), CleanCell(p.lastName), CleanCell(p.firstName),
           CleanCell(p.workshop), CleanCell(p.extension1), CleanCell(p.mailAddress1))
  }

  predicate CleanValue(v: Option<string>)
  {
    v.Some? ==> Trimmed(v.value)
  }

  /** Every present value of the row is trimmed and non-empty. */
  predicate IsClean(p: Person)
  {
    CleanValue(p.cdPerson) && CleanValue(p.lastName) && CleanValue(p.firstName) &&
    CleanValue(p.workshop) && CleanValue(p.extension1) && CleanValue(p.mailAddress1)
  }

  /** The personnel table as `get_personal_info` returns it: the same rows in
      the same order, every cell cleaned. */
  function CleanPersonnel(rows: seq<Person>): (r: seq<Person>)
    ensures |r| == |rows|
    ensures forall i :: 0 <= i < |rows| ==> r[i] == CleanPerson(rows[i]) && IsClean(r[i])
  {
    if rows == [] then []
    else [CleanPerson(rows[0])] + CleanPersonnel(rows[1..])
  }

  // ---------------------------------------------------------------------
  // merge_data: a left outer join on USER == cd_person
  // ---------------------------------------------------------------------

  /** One row of the merged table: the log row's HOST and USER, then the
      columns of the personnel row it was paired with. */
  datatype MergedRow = MergedRow(host: Option<string>, user: Option<string>, person: Person)

  /** The personnel columns of a log row that matched nothing. */
  const NoPerson := Person(None, None, None, None, None, None)

  /** The personnel rows whose cd_person equals `key`, in personnel order.
      Keys are compared as optional values, so a missing USER pairs with a
      missing cd_person, as pandas' merge pairs missing keys with each other. */
  function MatchesOf(key: Option<string>, people: seq<Person>): (m: seq<Person>)
    ensures |m| <= |people|
    ensures forall k :: 0 <= k < |m| ==> m[k].cdPerson == key && m[k] in people
  {
    if people == [] then []
    else (if people[0].cdPerson == key then [people[0]] else []) + MatchesOf(key, people[1..])
  }

  /** The join keys of the personnel table, in order. */
  function Keys(people: seq<Person>): (ks: seq<Option<string>>)
    ensures |ks| == |people|
  {
    seq(|people|, i requires 0 <= i < |people| => people[i].cdPerson)
  }

  /** How many personnel rows carry `key`. */
  function KeyCount(key: Option<string>, people: seq<Person>): nat
  {
    multiset(Keys(people))[key]
  }

  /** The matches of `key` are exactly the personnel rows that carry it: as many
      as the key occurs, and the personnel rows with that key in their order. */
  lemma {:induction false} MatchesOfCount(key: Option<string>, people: seq<Person>)
    ensures |MatchesOf(key, people)| == KeyCount(key, people)
  {
    if people != [] {
      MatchesOfCount(key, people[1..]);
      assert Keys(people) == [people[0].cdPerson] + Keys(people[1..]);
    }
  }

  lemma {:induction false} MatchesOfAppend(key: Option<string>, a: seq<Person>, b: seq<Person>)
    ensures MatchesOf(key, a + b) == MatchesOf(key, a) + MatchesOf(key, b)
  {
    if a == [] {
      assert a + b == b;
    } else {
      assert (a + b)[1..] == a[1..] + b;
      MatchesOfAppend(key, a[1..], b);
    }
  }

  /** Two personnel rows carrying the key come out of the match in the order
      they have in the personnel table, with the matches between them in
      between. */
  lemma MatchesOfOrder(key: Option<string>, a: seq<Person>, p: Person, b: seq<Person>, q: Person, c: seq<Person>)
    requires p.cdPerson == key && q.cdPerson == key
    ensures MatchesOf(key, a + [p] + b + [q] + c)
         == MatchesOf(key, a) + [p] + MatchesOf(key, b) + [q] + MatchesOf(key, c)
  {
    MatchesOfAppend(key, a + [p] + b + [q], c);
    MatchesOfAppend(key, a + [p] + b, [q]);
    MatchesOfAppend(key, a + [p], b);
    MatchesOfAppend(key, a, [p]);
    assert MatchesOf(key, [p]) == [p] by {
      assert MatchesOf(key, [p][1..]) == [];
    }
    assert MatchesOf(key, [q]) == [q] by {
      assert MatchesOf(key, [q][1..]) == [];
    }
  }

  /** The rows `merge` produces for one log row: one per matching personnel
      row, in personnel order, or the row alone with missing personnel
      columns when nothing matches. */
  function JoinRow(row: LogRecord, people: seq<Person>): (r: seq<MergedRow>)
    ensures |r| >= 1
  {
    var m := MatchesOf(row.user, people);
    if m == [] then [MergedRow(row.host, row.user, NoPerson)]
    else seq(|m|, k requires 0 <= k < |m| => MergedRow(row.host, row.user, m[k]))
  }

  /** `log.merge(people, left_on='USER', right_on='cd_person', how='left')`. */
  function LeftJoin(left: seq<LogRecord>, people: seq<Person>): (r: seq<MergedRow>)
    ensures |r| >= |left|
  {
    if left == [] then []
    else JoinRow(left[0], people) + LeftJoin(left[1..], people)
  }

  function Max1(n: nat): nat
  {
    if n == 0 then 1 else n
  }

  /** A log row yields max(1, k) rows, k the number of personnel rows with its
      key; each carries the log row's HOST and USER; with no match the
      personnel columns are all missing, otherwise they are the matching rows
      in personnel order. */
  lemma JoinRowSpec(row: LogRecord, people: seq<Person>)
    ensures var r := JoinRow(row, people);
      |MatchesOf(row.user, people)| == KeyCount(row.user, people) &&
      |r| == Max1(KeyCount(row.user, people)) &&
      (forall k :: 0 <= k < |r| ==> r[k].host == row.host && r[k].user == row.user) &&
      (KeyCount(row.user, people) == 0 ==> r == [MergedRow(row.host, row.user, NoPerson)]) &&
      (KeyCount(row.user, people) > 0 ==>
        forall k :: 0 <= k < |r| ==>
          r[k].person == MatchesOf(row.user, people)[k] && r[k].person.cdPerson == row.user)
  {
    MatchesOfCount(row.user, people);
  }

  /** Joining two consecutive chunks of the log table gives the rows of the
      first chunk followed by those of the second: the left order is kept. */
  lemma {:induction false} LeftJoinAppend(a: seq<LogRecord>, b: seq<LogRecord>, people: seq<Person>)
    ensures LeftJoin(a + b, people) == LeftJoin(a, people) + LeftJoin(b, people)
  {
    if a == [] {
      assert a + b == b;
    } else {
      assert (a + b)[1..] == a[1..] + b;
      LeftJoinAppend(a[1..], b, people);
    }
  }

  /** The number of rows of the join: max(1, k) summed over the log rows. */
  function FanOut(left: seq<LogRecord>, people: seq<Person>): nat
  {
    if left == [] then 0
    else Max1(KeyCount(left[0].user, people)) + FanOut(left[1..], people)
  }

  lemma {:induction false} LeftJoinLength(left: seq<LogRecord>, people: seq<Person>)
    ensures |LeftJoin(left, people)| == FanOut(left, people)
    ensures |LeftJoin(left, people)| >= |left|
  {
    if left != [] {
      JoinRowSpec(left[0], people);
      LeftJoinLength(left[1..], people);
    }
  }

  /** No two personnel rows share a cd_person. */
  predicate UniqueKeys(people: seq<Person>)
  {
    forall i, j :: 0 <= i < j < |people| ==> people[i].cdPerson != people[j].cdPerson
  }

  lemma {:induction false} UniqueKeyCount(key: Option<string>, people: seq<Person>)
    requires UniqueKeys(people)
    ensures KeyCount(key, people) <= 1
  {
    MatchesOfCount(key, people);
    if people != [] {
      UniqueKeyCount(key, people[1..]);
      MatchesOfCount(key, people[1..]);
      if people[0].cdPerson == key {
        assert forall j :: 0 <= j < |people[1..]| ==> people[1..][j].cdPerson != key by {
          assert forall j :: 0 < j < |people| ==> people[j].cdPerson != people[0].cdPerson;
        }
        MatchesOfNone(key, people[1..]);
      }
    }
  }

  lemma {:induction false} MatchesOfNone(key: Option<string>, people: seq<Person>)
    requires forall j :: 0 <= j < |people| ==> people[j].cdPerson != key
    ensures MatchesOf(key, people) == []
  {
    if people != [] {
      MatchesOfNone(key, people[1..]);
    }
  }

  /** With unique personnel keys the join has exactly one row per log row. */
  lemma {:induction false} LeftJoinUniqueKeys(left: seq<LogRecord>, people: seq<Person>)
    requires UniqueKeys(people)
    ensures |LeftJoin(left, people)| == |left|
  {
    if left != [] {
      UniqueKeyCount(left[0].user, people);
      JoinRowSpec(left[0], people);
      LeftJoinUniqueKeys(left[1..], people);
    }
  }

  /** A log row that matches nothing appears once, in its place, with every
      personnel column missing. */
  lemma LeftJoinUnmatched(a: seq<LogRecord>, row: LogRecord, b: seq<LogRecord>, people: seq<Person>)
    requires KeyCount(row.user, people) == 0
    ensures LeftJoin(a + [row] + b, people)
         == LeftJoin(a, people) + [MergedRow(row.host, row.user, NoPerson)] + LeftJoin(b, people)
  {
    LeftJoinAppend(a + [row], b, people);
    LeftJoinAppend(a, [row], people);
    MatchesOfCount(row.user, people);
    assert JoinRow(row, people) == [MergedRow(row.host, row.user, NoPerson)];
    assert LeftJoin([row], people) == JoinRow(row, people) + LeftJoin([], people);
  }

  /** A duplicated cd_person fans one log row out into one row per duplicate;
      a missing USER fans out the same way over two rows without cd_person. */
  lemma LeftJoinDuplicateKey(row: LogRecord, p1: Person, p2: Person)
    requires p1.cdPerson == row.user && p2.cdPerson == row.user
    ensures LeftJoin([row], [p1, p2])
         == [MergedRow(row.host, row.user, p1), MergedRow(row.host, row.user, p2)]
  {
    assert [p1, p2][1..] == [p2];
    assert MatchesOf(row.user, [p1, p2]) == [p1, p2];
  }

  /** A log row without USER is paired with every personnel row without
      cd_person, as missing keys match each other: it yields one row per such
      personnel row, each with USER and cd_person missing. */
  lemma MissingUserMatchesMissingId(row: LogRecord, people: seq<Person>)
    requires row.user.None?
    ensures var r := JoinRow(row, people);
      |r| == Max1(KeyCount(None, people)) &&
      forall k :: 0 <= k < |r| ==> r[k].user.None? && r[k].person.cdPerson.None?
  {
    JoinRowSpec(row, people);
  }

  /** Every merged row is the HOST and USER of some log row, paired either
      with a personnel row whose cd_person equals that USER or with missing
      personnel columns. */
  lemma {:induction false} LeftJoinSound(left: seq<LogRecord>, people: seq<Person>)
    ensures forall r :: r in LeftJoin(left, people) ==>
      (exists i :: 0 <= i < |left| && r.host == left[i].host && r.user == left[i].user) &&
      (r.person == NoPerson || (r.person in people && r.person.cdPerson == r.user))
  {
    if left != [] {
      LeftJoinSound(left[1..], people);
      JoinRowSpec(left[0], people);
      forall r | r in LeftJoin(left, people)
        ensures (exists i :: 0 <= i < |left| && r.host == left[i].host && r.user == left[i].user) &&
                (r.person == NoPerson || (r.person in people && r.person.cdPerson == r.user))
      {
        if r in JoinRow(left[0], people) {
          assert r.host == left[0].host && r.user == left[0].user;
        } else {
          assert r in LeftJoin(left[1..], people);
          var i :| 0 <= i < |left[1..]| && r.host == left[1..][i].host && r.user == left[1..][i].user;
          assert left[1..][i] == left[i + 1];
        }
      }
    }
  }

  // ---------------------------------------------------------------------
  // merge_data and process_and_save
  // ---------------------------------------------------------------------

  /** `merge_data` with the personnel table passed in: normalise the log rows,
      clean the personnel rows, left-join. */
  function MergeData(log: seq<LogRecord>, personnel: seq<Person>): (r: seq<MergedRow>)
    ensures |r| >= |log|
  {
    LeftJoinLength(ProcessListenerLog(log), CleanPersonnel(personnel));
    LeftJoin(ProcessListenerLog(log), CleanPersonnel(personnel))
  }

  /** With unique cleaned personnel ids the merged table has one row per log row. */
  lemma MergeDataUniqueKeys(log: seq<LogRecord>, personnel: seq<Person>)
    requires UniqueKeys(CleanPersonnel(personnel))
    ensures |MergeData(log, personnel)| == |log|
  {
    LeftJoinUniqueKeys(ProcessListenerLog(log), CleanPersonnel(personnel));
  }

  /** A value with no whitespace at either end survives the cleanup unchanged. */
  lemma CleanCellTrimmed(s: string)
    requires Trimmed(s)
    ensures CleanCell(Some(s)) == Some(s)
  {
  }

  /** Whitespace around a value is what the cleanup removes, and only that. */
  lemma CleanCellPadded(w1: string, s: string, w2: string)
    requires AllSpace(w1) && AllSpace(w2) && Trimmed(s)
    ensures CleanCell(Some(w1 + s + w2)) == Some(s)
  {
    StripPadded(w1, s, w2);
    CleanCellTrimmed(s);
  }

  /** A USER written with a prefix before its six digits, and a cd_person
      holding those digits with padding around them, end up paired: the
      merged row has the log row's HOST, the bare id as USER and the cleaned
      personnel row. */
  lemma {:induction false} MergeDataPairsIds(host: Option<string>, prefix: string, id: string,
                                             w1: string, w2: string, p: Person)
    requires |id| == 6 && AllDigits(id) && AllSpace(w1) && AllSpace(w2)
    requires p.cdPerson == Some(w1 + id + w2)
    ensures MergeData([ListenerLogParser.LogRecord(host, Some(prefix + id))], [p])
         == [MergedRow(host, Some(id), CleanPerson(p))]
  {
    var u := prefix + id;
    assert EndsInSixDigits(u) by {
      assert forall i :: |u| - 6 <= i < |u| ==> u[i] == id[i - |prefix|];
    }
    assert u[|u| - 6..] == id;
    var log := [ListenerLogParser.LogRecord(host, Some(u))];
    assert ProcessListenerLog(log) == [ListenerLogParser.LogRecord(host, Some(id))];
    assert Trimmed(id) by {
      assert IsDigit(id[0]) && IsDigit(id[5]);
    }
    CleanCellPadded(w1, id, w2);
    var c := CleanPerson(p);
    assert c.cdPerson == Some(id);
    assert CleanPersonnel([p]) == [c];
    assert MatchesOf(Some(id), [c]) == [c];
    var row := ListenerLogParser.LogRecord(host, Some(id));
    assert JoinRow(row, [c]) == [MergedRow(host, Some(id), c)];
    assert LeftJoin([row], [c]) == JoinRow(row, [c]) + LeftJoin([], [c]);
    assert MergeData(log, [p]) == LeftJoin([row], [c]);
  }

  /** The two stages end to end: a listener-log line carrying a HOST fragment
      and then a USER fragment whose value ends in a six-digit id is extracted
      and merged into one row pairing that HOST and id with the personnel row
      of that id. The extracted records are passed to the merge directly: the
      CSV file between the stages, and the dtype `read_csv` would infer for an
      all-digit USER (when `prefix` is empty), are not part of this model. */
  lemma {:induction false} LineToMergedRow(a: string, h: string, prefix: string, id: string, c: string,
                                           w1: string, w2: string, p: Person)
    requires '(' !in a && h != [] && ')' !in h && '(' !in h && ')' !in prefix
    requires |id| == 6 && AllDigits(id) && AllSpace(w1) && AllSpace(w2)
    requires p.cdPerson == Some(w1 + id + w2)
    ensures var line := a + ListenerLogParser.HostKey + h + ")" + ListenerLogParser.UserKey + prefix + id + ")" + c;
      MergeData(ListenerLogParser.ParseLines([line]), [p]) == [MergedRow(Some(h), Some(id), CleanPerson(p))]
  {
    var u := prefix + id;
    assert ')' !in u by {
      assert forall i :: 0 <= i < |id| ==> IsDigit(id[i]);
    }
    var line := a + ListenerLogParser.HostKey + h + ")" + ListenerLogParser.UserKey + u + ")" + c;
    assert line == a + ListenerLogParser.HostKey + h + ")" + ListenerLogParser.UserKey + prefix + id + ")" + c;
    ListenerLogParser.ParseLineHostThenUser(a, h, u, c);
    ListenerLogParser.ParseLinesSnoc([], line);
    assert [] + [line] == [line];
    assert ListenerLogParser.ParseLines([line]) == [ListenerLogParser.LogRecord(Some(h), Some(u))];
    MergeDataPairsIds(Some(h), prefix, id, w1, w2, p);
  }

  /** `process_and_save` of the merge stage: the merged rows, and the output
      file is always written, even when there are none. */
  method ProcessAndSave(log: seq<LogRecord>, personnel: seq<Person>)
    returns (merged: seq<MergedRow>, written: bool)
    ensures merged == MergeData(log, personnel)
    ensures written
  {
    merged := MergeData(log, personnel);
    written := true;
  }
}
