/**
 * Identifiers. Logger._get_id draws random numbers in 100..999 until one
 * is not already an id in the table it is asked about; add_log then stores
 * a log under int(str(book_id) + str(n)). The random draws reach the model
 * as a sequence and the table's ids as a set, in place of randint and the
 * SELECT query.
 */
module LogIds {
  import opened Wrappers
  import opened PyText

  /** randint(100, 999): the range _get_id draws from. */
  const MinDraw: int := 100
  const MaxDraw: int := 999

  predicate InDrawRange(draws: seq<int>) {
    forall i :: 0 <= i < |draws| ==> MinDraw <= draws[i] <= MaxDraw
  }

  /** The table _get_id is asked about: its 'type' argument. */
  datatype Table = Books | Logs

  /** The first draw that is not taken: what _get_id returns once it has consumed the draws up to it. */
  function FirstFresh(draws: seq<int>, taken: set<int>): (r: Option<int>)
    ensures r.Some? ==> r.value in draws && r.value !in taken
  {
    if draws == [] then None
    else if draws[0] !in taken then Some(draws[0])
    else FirstFresh(draws[1..], taken)
  }

  /** FirstFresh returns the earliest untaken draw, and nothing only when every draw is taken. */
  lemma {:induction false} FirstFreshIsFirst(draws: seq<int>, taken: set<int>)
    ensures FirstFresh(draws, taken).None? <==> forall i :: 0 <= i < |draws| ==> draws[i] in taken
    ensures FirstFresh(draws, taken).Some? ==>
      exists i :: 0 <= i < |draws| && draws[i] == FirstFresh(draws, taken).value
        && forall j :: 0 <= j < i ==> draws[j] in taken
  {
    if draws != [] && draws[0] in taken {
      FirstFreshIsFirst(draws[1..], taken);
      if FirstFresh(draws, taken).Some? {
        var i :| 0 <= i < |draws[1..]| && draws[1..][i] == FirstFresh(draws, taken).value
          && forall j :: 0 <= j < i ==> draws[1..][j] in taken;
        assert draws[i + 1] == FirstFresh(draws, taken).value;
        assert forall j :: 0 <= j < i + 1 ==> draws[j] in taken by {
          forall j | 0 <= j < i + 1 ensures draws[j] in taken {
            if j > 0 { assert draws[j] == draws[1..][j - 1]; }
          }
        }
      } else {
        forall i | 0 <= i < |draws| ensures draws[i] in taken {
          if i > 0 { assert draws[i] == draws[1..][i - 1]; }
        }
      }
    }
  }

  /**
   * Logger._get_id(type) over a finite supply of draws: the first draw that
   * is not an id of the chosen table, or None when the supply runs out.
   */
  method GetId(table: Table, draws: seq<int>, bookIds: set<int>, logIds: set<int>) returns (r: Option<int>)
    requires InDrawRange(draws)
    ensures r == FirstFresh(draws, if table == Logs then logIds else bookIds)
    ensures r.Some? ==> MinDraw <= r.value <= MaxDraw
  {
    var taken := if table == Logs then logIds else bookIds;
    var i := 0;
    while i < |draws|
      invariant 0 <= i <= |draws|
      invariant FirstFresh(draws[i..], taken) == FirstFresh(draws, taken)
    {
      var id := draws[i];
      assert draws[i..][1..] == draws[i + 1..];
      if id !in taken {
        return Some(id);
      }
      i := i + 1;
    }
    return None;
  }

  /** int() of a numeral followed by three more digits is the numeral's value times 1000 plus theirs. */
  lemma ParseShifted(b: string, d: string, bookId: nat, n: nat)
    requires AllDigits(b) && |b| > 0 && Value(b) == bookId
    requires AllDigits(d) && |d| == 3 && Value(d) == n
    ensures ParseInt(b + d) == Some(bookId * 1000 + n)
  {
    ValueConcatThree(b, d);
    ParseIntOfDigits(b + d);
  }

  /** The digits of a book id followed by the three digits of n denote book_id * 1000 + n. */
  lemma LogIdDigits(bookId: nat, n: nat)
    requires MinDraw <= n <= MaxDraw
    ensures ParseInt(NatToString(bookId) + NatToString(n)) == Some(bookId * 1000 + n)
  {
    ThreeDigits(n);
    ParseShifted(NatToString(bookId), NatToString(n), bookId, n);
  }

  /**
   * int(str(book_id) + str(n)), the id add_log gives a log: it is
   * book_id * 1000 + n, so the book and the number can be read back by
   * division.
   */
  function LogId(bookId: nat, n: nat): (id: int)
    requires MinDraw <= n <= MaxDraw
    ensures id == bookId * 1000 + n
    ensures id / 1000 == bookId && id % 1000 == n
  {
    LogIdDigits(bookId, n);
    ParseInt(NatToString(bookId) + NatToString(n)).value
  }

  // ---------------------------------------------------------------------
  // add_log's id, as written and as intended
  // ---------------------------------------------------------------------

  /**
   * The id add_log stores, as written: _get_id('log') checks the bare
   * draw n against the ids in the logs table, and the log is then stored
   * under LogId(book_id, n).
   */
  function AddLogIdAsWritten(bookId: nat, draws: seq<int>, logIds: set<int>): (r: Option<int>)
    requires InDrawRange(draws)
    ensures r.None? <==> forall i :: 0 <= i < |draws| ==> draws[i] in logIds
    ensures r.Some? ==> r.value / 1000 == bookId && r.value % 1000 in draws && r.value % 1000 !in logIds
  {
    FirstFreshIsFirst(draws, logIds);
    match FirstFresh(draws, logIds)
    case Some(n) => Some(LogId(bookId, n))
    case None => None
  }

  /** Every id add_log stores has at least four digits, so a bare draw is never one of them. */
  predicate AllComposed(logIds: set<int>) {
    forall id :: id in logIds ==> id >= 1000
  }

  /** As written, the collision check never rejects a draw: the first draw is always used. */
  lemma AsWrittenCheckIsVacuous(bookId: nat, draws: seq<int>, logIds: set<int>)
    requires InDrawRange(draws) && |draws| > 0
    requires AllComposed(logIds)
    ensures AddLogIdAsWritten(bookId, draws, logIds) == Some(LogId(bookId, draws[0]))
  {
    assert draws[0] !in logIds;
  }

  /** As written, a log of book 123 stored as 123456 does not stop a draw of 456 from reusing that id. */
  lemma AsWrittenCollision()
    ensures AllComposed({123456})
    ensures AddLogIdAsWritten(123, [456], {123456}) == Some(123456)
    ensures AddLogIdAsWritten(123, [456], {123456}).value in {123456}
  {
    assert InDrawRange([456]);
    assert FirstFresh([456], {123456}) == Some(456);
  }

  /** The numbers n for which LogId(book_id, n) is already in the logs table. */
  function UsedSuffixes(bookId: nat, logIds: set<int>): set<int> {
    set id | id in logIds && id / 1000 == bookId :: id % 1000
  }

  lemma LogIdTaken(bookId: nat, n: nat, logIds: set<int>)
    requires MinDraw <= n <= MaxDraw
    ensures LogId(bookId, n) in logIds <==> n in UsedSuffixes(bookId, logIds)
  {
    if n in UsedSuffixes(bookId, logIds) {
      var id :| id in logIds && id / 1000 == bookId && id % 1000 == n;
      assert id == 1000 * (id / 1000) + id % 1000;
    }
  }

  /** A draw's composed id is taken exactly when the draw is among the book's used numbers, draw by draw. */
  lemma DrawsTaken(bookId: nat, draws: seq<int>, logIds: set<int>)
    requires InDrawRange(draws)
    ensures (forall i :: 0 <= i < |draws| ==> draws[i] in UsedSuffixes(bookId, logIds))
        <==> (forall i :: 0 <= i < |draws| ==> LogId(bookId, draws[i]) in logIds)
  {
    forall i | 0 <= i < |draws| {
      LogIdTaken(bookId, draws[i], logIds);
    }
  }

  /**
   * The id add_log evidently intends: the first draw whose composed id is
   * not in the logs table. It is new, belongs to the book and ends in a
   * number from the draw range, and there is none only when every draw's
   * composed id is taken.
   */
  function FreshLogId(bookId: nat, draws: seq<int>, logIds: set<int>): (r: Option<int>)
    requires InDrawRange(draws)
    ensures r.None? <==> forall i :: 0 <= i < |draws| ==> LogId(bookId, draws[i]) in logIds
    ensures r.Some? ==>
      && r.value !in logIds && r.value / 1000 == bookId
      && r.value % 1000 in draws && MinDraw <= r.value % 1000 <= MaxDraw
  {
    var used := UsedSuffixes(bookId, logIds);
    FirstFreshIsFirst(draws, used);
    DrawsTaken(bookId, draws, logIds);
    match FirstFresh(draws, used)
    case Some(n) =>
      LogIdTaken(bookId, n, logIds);
      Some(LogId(bookId, n))
    case None => None
  }

  /**
   * add_log's id with the collision check done on the composed id: draw
   * until book_id * 1000 + n is not an id of the logs table.
   */
  method NewLogId(bookId: nat, draws: seq<int>, logIds: set<int>) returns (r: Option<int>)
    requires InDrawRange(draws)
    ensures r == FreshLogId(bookId, draws, logIds)
    ensures r.Some? ==> r.value !in logIds
  {
    ghost var used := UsedSuffixes(bookId, logIds);
    var i := 0;
    while i < |draws|
      invariant 0 <= i <= |draws|
      invariant FirstFresh(draws[i..], used) == FirstFresh(draws, used)
    {
      var id := LogId(bookId, draws[i]);
      LogIdTaken(bookId, draws[i], logIds);
      assert draws[i..][1..] == draws[i + 1..];
      if id !in logIds {
        return Some(id);
      }
      i := i + 1;
    }
    return None;
  }
}
