/** The book predicate: balances summed per symbol against the expected book. */
module Book {
  import opened Wrappers
  import opened Numerals
  import opened Sequences
  import opened Holdings

  // ----- What the rows say -----

  function Balance(row: Row): Option<int> {
    ParseI64(Trim(row.janqty))
  }

  predicate AllParse(rows: seq<Row>) {
    forall i :: 0 <= i < |rows| ==> Balance(rows[i]).Some?
  }

  /** What one row adds to a symbol: its balance if positive, in unbounded arithmetic. */
  function Share(row: Row, symbol: string): nat {
    match Balance(row)
    case Some(n) => if Trim(row.expcode) == symbol && n > 0 then n else 0
    case None => 0
  }

  /** The quantity of a symbol held across all rows. */
  function Held(rows: seq<Row>, symbol: string): nat {
    if rows == [] then 0 else Held(rows[..|rows| - 1], symbol) + Share(rows[|rows| - 1], symbol)
  }

  function Unparsed(rows: seq<Row>): seq<Row> {
    if rows == [] then []
    else
      var last := rows[|rows| - 1];
      Unparsed(rows[..|rows| - 1]) + if Balance(last).None? then [last] else []
  }

  lemma AllParseFront(rows: seq<Row>)
    requires rows != []
    ensures AllParse(rows) <==> AllParse(rows[..|rows| - 1]) && Balance(rows[|rows| - 1]).Some?
  {
    assert forall i :: 0 <= i < |rows| - 1 ==> rows[..|rows| - 1][i] == rows[i];
  }

  lemma {:induction false} UnparsedEmptyIff(rows: seq<Row>)
    ensures Unparsed(rows) == [] <==> AllParse(rows)
  {
    if rows != [] {
      UnparsedEmptyIff(rows[..|rows| - 1]);
      AllParseFront(rows);
    }
  }

  type Book = map<string, int64>

  /** A book of held symbols; sums are kept in 64 bits and wrap. */
  ghost predicate Reports(rows: seq<Row>, reported: Book) {
    && (forall symbol :: symbol in reported <==> Held(rows, symbol) > 0)
    && (forall symbol :: symbol in reported ==> reported[symbol] == Wrap64(Held(rows, symbol)))
  }

  lemma WrapAdds(a: int, b: int)
    ensures Wrap64(Wrap64(a) + b) == Wrap64(a + b)
  {
  }

  /** One row added to the 64-bit totals. */
  function AddRow(reported: Book, row: Row): Book {
    var symbol := Trim(row.expcode);
    match Balance(row)
    case None => reported
    case Some(n) =>
      if n > 0 then reported[symbol := Wrap64((if symbol in reported then reported[symbol] as int else 0) + n)]
        else reported
  }

  lemma HeldNext(rows: seq<Row>, n: nat, symbol: string)
    requires n < |rows|
    ensures Held(rows[..n + 1], symbol) == Held(rows[..n], symbol) + Share(rows[n], symbol)
  {
    assert rows[..n + 1][..n] == rows[..n];
  }

  lemma UnparsedNext(rows: seq<Row>, n: nat)
    requires n < |rows|
    ensures Unparsed(rows[..n + 1]) == Unparsed(rows[..n]) + if Balance(rows[n]).None? then [rows[n]] else []
  {
    assert rows[..n + 1][..n] == rows[..n];
  }

  lemma ReportNext(rows: seq<Row>, n: nat, reported: Book)
    requires n < |rows| && Reports(rows[..n], reported)
    ensures Reports(rows[..n + 1], AddRow(reported, rows[n]))
  {
    var next := AddRow(reported, rows[n]);
    forall s
      ensures s in next <==> Held(rows[..n + 1], s) > 0
      ensures s in next ==> next[s] == Wrap64(Held(rows[..n + 1], s))
    {
      HeldNext(rows, n, s);
      WrapAdds(Held(rows[..n], s), Share(rows[n], s));
    }
  }

  /** One row of the loop below. */
  method TakeRow(reported: Book, row: Row) returns (next: Book, parsed: bool)
    ensures next == AddRow(reported, row) && (parsed <==> Balance(row).Some?)
  {
    next := reported;
    var symbol := Trim(row.expcode);
    var balance := Balance(row);
    if balance.None? {
      return next, false;
    }
    if balance.value > 0 {
      var held: int := if symbol in reported then reported[symbol] as int else 0;
      next := reported[symbol := Wrap64(held + balance.value)];
    }
    parsed := true;
  }

  /** The held quantity of each symbol, or the rows whose balance is not a number. */
  method HeldQuantities(rows: seq<Row>) returns (r: Result<Book, BookError>)
    ensures r.Ok? <==> AllParse(rows)
    ensures r.Ok? ==> Reports(rows, r.value)
    ensures r.Err? ==> r.error == UnparseableRows(Unparsed(rows))
  {
    var reported: Book := map[];
    var unparseable: seq<Row> := [];
    for i := 0 to |rows|
      invariant Reports(rows[..i], reported) && unparseable == Unparsed(rows[..i])
    {
      UnparsedNext(rows, i);
      ReportNext(rows, i, reported);
      var parsed;
      reported, parsed := TakeRow(reported, rows[i]);
      if !parsed {
        unparseable := unparseable + [rows[i]];
      }
    }
    assert rows[..|rows|] == rows;
    UnparsedEmptyIff(rows);
    return if unparseable == [] then Ok(reported) else Err(UnparseableRows(unparseable));
  }

  // ----- The comparison -----

  /** A book expects positive quantities only. */
  ghost predicate ProperBook(expected: Book) {
    forall symbol :: symbol in expected ==> expected[symbol] > 0
  }

  /** What the comparison accepts: 64-bit totals equal to the expected ones, and nothing else
      held. */
  ghost predicate Matches(rows: seq<Row>, expected: Book) {
    && AllParse(rows)
    && forall symbol ::
         if symbol in expected then Held(rows, symbol) > 0 && Wrap64(Held(rows, symbol)) == expected[symbol]
                        else Held(rows, symbol) == 0
  }

  /** What it is meant to accept: each symbol's total is the expected quantity, zero if none. */
  ghost predicate Meets(rows: seq<Row>, expected: Book) {
    AllParse(rows) && forall symbol :: Held(rows, symbol) == if symbol in expected then expected[symbol] as int else 0
  }

  /** Takes the expected symbols out of the reported ones; what is left is extra. */
  method Subtract(held: Book, expected: Book) returns (missing: set<string>, differing: set<string>, extra: set<string>)
    ensures forall s :: s in missing <==> s in expected && s !in held
    ensures forall s :: s in differing <==> s in expected && s in held && held[s] != expected[s]
    ensures forall s :: s in extra <==> s in held && s !in expected
  {
    var reported := held;
    missing, differing := {}, {};
    var pending := expected.Keys;
    while pending != {}
      invariant forall s :: s in pending ==> s in expected
      invariant forall s :: s in reported <==> s in held && (s !in expected || s in pending)
      invariant forall s :: s in reported ==> reported[s] == held[s]
      invariant forall s :: s in missing <==> s in expected && s !in pending && s !in held
      invariant forall s :: s in differing <==> s in expected && s !in pending && s in held && held[s] != expected[s]
      decreases |pending|
    {
      var symbol :| symbol in pending;
      if symbol !in reported {
        missing := missing + {symbol};
      } else if reported[symbol] != expected[symbol] {
        differing := differing + {symbol};
      }
      reported := reported - {symbol};
      pending := pending - {symbol};
    }
    extra := reported.Keys;
  }

  /** The symbols at fault. */
  ghost predicate Faults(rows: seq<Row>, expected: Book, missing: set<string>, differing: set<string>,
        extra: set<string>)
  {
    && (forall s :: s in missing <==> s in expected && Held(rows, s) == 0)
    && (forall s :: s in differing <==> s in expected && Held(rows, s) > 0 && Wrap64(Held(rows, s)) != expected[s])
    && (forall s :: s in extra <==> s !in expected && Held(rows, s) > 0)
  }

  lemma FaultsExact(rows: seq<Row>, held: Book, expected: Book, missing: set<string>, differing: set<string>,
        extra: set<string>)
    requires AllParse(rows) && Reports(rows, held)
    requires forall s :: s in missing <==> s in expected && s !in held
    requires forall s :: s in extra <==> s in held && s !in expected
    requires forall s :: s in differing <==> s in expected && s in held && held[s] != expected[s]
    ensures Faults(rows, expected, missing, differing, extra)
    ensures missing == {} && differing == {} && extra == {} <==> Matches(rows, expected)
  {
    if missing == {} && differing == {} && extra == {} {
      forall s
        ensures if s in expected then Held(rows, s) > 0 && Wrap64(Held(rows, s)) == expected[s] else Held(rows, s) == 0
      {
        assert s !in missing && s !in differing && s !in extra;
      }
    }
    if Matches(rows, expected) {
      SameBook(rows, held, expected);
      assert missing == {} && differing == {} && extra == {};
    }
  }

  /** Accepts exactly the matching books, and otherwise names the symbols at fault. */
  method CompareBook(rows: seq<Row>, expected: Book) returns (r: Result<(), BookError>)
    ensures r.Ok? <==> Matches(rows, expected)
    ensures r.Err? && !AllParse(rows) ==> r.error == UnparseableRows(Unparsed(rows))
    ensures r.Err? && AllParse(rows) ==>
      r.error.Mismatch? && Faults(rows, expected, r.error.missing, r.error.differing, r.error.extra)
  {
    var held := HeldQuantities(rows);
    if held.Err? {
      return Err(held.error);
    }
    var missing, differing, extra := Subtract(held.value, expected);
    FaultsExact(rows, held.value, expected, missing, differing, extra);
    if missing == {} && differing == {} && extra == {} {
      return Ok(());
    }
    return Err(Mismatch(missing, differing, extra));
  }

  lemma SameBook(rows: seq<Row>, reported: Book, expected: Book)
    requires Reports(rows, reported) && Matches(rows, expected)
    ensures reported == expected
  {
    assert reported.Keys == expected.Keys;
  }

  // ----- Expected books -----

  /** Positive quantities only, by trimmed symbol; a later pair replaces an earlier one. */
  function FromPairs(pairs: seq<(string, int64)>): Book {
    if pairs == [] then map[]
    else
      var (symbol, quantity) := pairs[|pairs| - 1];
      var before := FromPairs(pairs[..|pairs| - 1]);
      if quantity > 0 then before[Trim(symbol) := quantity] else before
  }

  /** The pair that decides a symbol: the last positive one. */
  ghost predicate LastPair(pairs: seq<(string, int64)>, symbol: string, i: int) {
    && 0 <= i < |pairs| && Trim(pairs[i].0) == symbol && pairs[i].1 > 0
    && forall k :: i < k < |pairs| && Trim(pairs[k].0) == symbol ==> pairs[k].1 <= 0
  }

  lemma {:induction false} FromPairsExact(pairs: seq<(string, int64)>, symbol: string)
    ensures symbol in FromPairs(pairs) <==> exists i :: LastPair(pairs, symbol, i)
    ensures forall i :: LastPair(pairs, symbol, i) ==>
        symbol in FromPairs(pairs) && FromPairs(pairs)[symbol] == pairs[i].1
  {
    if pairs != [] {
      var n := |pairs| - 1;
      var front := pairs[..n];
      FromPairsExact(front, symbol);
      if Trim(pairs[n].0) == symbol && pairs[n].1 > 0 {
        assert LastPair(pairs, symbol, n);
      } else {
        forall i ensures LastPair(pairs, symbol, i) <==> LastPair(front, symbol, i) {
          assert forall k :: 0 <= k < n ==> front[k] == pairs[k];
        }
      }
    }
  }

  lemma FromPairsProper(pairs: seq<(string, int64)>)
    ensures ProperBook(FromPairs(pairs))
  {
    forall symbol | symbol in FromPairs(pairs) ensures FromPairs(pairs)[symbol] > 0 {
      FromPairsExact(pairs, symbol);
      var i :| LastPair(pairs, symbol, i);
    }
  }

  // ----- The book gate -----

  datatype OrdersPage = OrdersPage(remaining: seq<string>, next: string)

  /** An order rests unless its remaining quantity is a number that is not positive. */
  predicate Rests(remaining: string) {
    var n := ParseI64(Trim(remaining));
    n.None? || n.value > 0
  }

  predicate NoneRests(remaining: seq<string>) {
    forall i :: 0 <= i < |remaining| ==> match ParseI64(Trim(remaining[i])) case Some(n) => n <= 0 case None => false
  }

  function CountResting(remaining: seq<string>): nat {
    if remaining == [] then 0
    else CountResting(remaining[..|remaining| - 1]) + if Rests(remaining[|remaining| - 1]) then 1 else 0
  }

  lemma {:induction false} CountRestingZeroIff(remaining: seq<string>)
    ensures CountResting(remaining) == 0 <==> NoneRests(remaining)
  {
    if remaining != [] {
      var n := |remaining| - 1;
      CountRestingZeroIff(remaining[..n]);
      assert forall i :: 0 <= i < n ==> remaining[..n][i] == remaining[i];
      assert !Rests(remaining[n]) <==> match ParseI64(Trim(remaining[n])) case Some(k) => k <= 0 case None => false;
    }
  }

  /** The places of the quantities that are not a number at or below zero. */
  ghost function Open(remaining: seq<string>): set<nat> {
    set i: nat | i < |remaining| && MayRest(remaining[i])
  }

  predicate MayRest(remaining: string) {
    match ParseI64(Trim(remaining)) case Some(n) => n > 0 case None => true
  }

  lemma OpenNext(remaining: seq<string>, n: nat)
    requires n < |remaining|
    ensures Open(remaining[..n + 1]) == Open(remaining[..n]) + if MayRest(remaining[n]) then {n} else {}
    ensures |Open(remaining[..n + 1])| == |Open(remaining[..n])| + if MayRest(remaining[n]) then 1 else 0
  {
    var front := remaining[..n];
    var now := remaining[..n + 1];
    assert now == front + [remaining[n]];
    forall i: nat ensures i in Open(now) <==> i in Open(front) || (i == n && MayRest(remaining[n])) {
      assert i < n ==> now[i] == front[i];
    }
    assert n !in Open(front);
  }

  lemma {:induction false} CountRestingExact(remaining: seq<string>)
    ensures CountResting(remaining) == |Open(remaining)|
  {
    if remaining != [] {
      var n := |remaining| - 1;
      CountRestingExact(remaining[..n]);
      OpenNext(remaining, n);
      assert remaining[..n + 1] == remaining;
    }
  }

  ghost predicate BookProven(orders: Result<OrdersPage, int>, server: Server, expected: Book) {
    && orders.Ok? && Trim(orders.value.next) == "" && NoneRests(orders.value.remaining)
    && exists k: nat :: k < 20 && EndsAt(server, k) && Matches(RowsUpTo(server, k + 1), expected)
  }

  /** Succeeds exactly on one untruncated order page with nothing resting and a fully
      enumerated, matching book, and then hands back the expected book itself. */
  method VerifyBook(orders: Result<OrdersPage, int>, server: Server, expected: Book)
    returns (r: Result<Book, BookError>)
    ensures r.Ok? <==> BookProven(orders, server, expected)
    ensures r.Ok? ==> r.value == expected
    ensures orders.Err? ==> r == Err(ReadFailed(orders.error))
    ensures orders.Ok? && Trim(orders.value.next) != "" ==> r == Err(OrdersTruncated)
    ensures orders.Ok? && Trim(orders.value.next) == "" && Open(orders.value.remaining) != {} ==>
              r == Err(OpenOrders(|Open(orders.value.remaining)|))
  {
    if orders.Err? {
      return Err(ReadFailed(orders.error));
    }
    if Trim(orders.value.next) != "" {
      return Err(OrdersTruncated);
    }
    var open := CountResting(orders.value.remaining);
    CountRestingZeroIff(orders.value.remaining);
    CountRestingExact(orders.value.remaining);
    if open > 0 {
      return Err(OpenOrders(open));
    }
    var collected := CollectHoldings(server);
    if collected.Err? {
      return Err(collected.error);
    }
    var compared := CompareBook(collected.value, expected);
    if compared.Err? {
      return Err(compared.error);
    }
    r := HeldQuantities(collected.value);
    SameBook(collected.value, r.value, expected);
  }

  /** The flat gate is the empty book: every balance is a number and none is positive. */
  lemma FlatIsTheEmptyBook(rows: seq<Row>)
    ensures Matches(rows, map[]) <==>
        forall i :: 0 <= i < |rows| ==> match ParseI64(Trim(rows[i].janqty)) case Some(n) => n <= 0 case None => false
  {
    if Matches(rows, map[]) {
      forall i | 0 <= i < |rows| ensures Balance(rows[i]).Some? && Balance(rows[i]).value <= 0 {
        RemoveAt(rows, i, Trim(rows[i].expcode));
      }
    }
    if forall i :: 0 <= i < |rows| ==> Balance(rows[i]).Some? && Balance(rows[i]).value <= 0 {
      forall symbol ensures Held(rows, symbol) == 0 {
        NothingHeld(rows, symbol);
      }
    }
  }

  lemma {:induction false} NothingHeld(rows: seq<Row>, symbol: string)
    requires forall i :: 0 <= i < |rows| ==> Balance(rows[i]).Some? && Balance(rows[i]).value <= 0
    ensures Held(rows, symbol) == 0
  {
    if rows != [] {
      NothingHeld(rows[..|rows| - 1], symbol);
    }
  }

  // ----- Row order -----

  lemma HeldSplit(rows: seq<Row>, front: seq<Row>, last: Row, symbol: string)
    requires rows != [] && rows[..|rows| - 1] == front && rows[|rows| - 1] == last
    ensures Held(rows, symbol) == Held(front, symbol) + Share(last, symbol)
  {
  }

  lemma {:induction false} HeldAppend(a: seq<Row>, b: seq<Row>, symbol: string)
    ensures Held(a + b, symbol) == Held(a, symbol) + Held(b, symbol)
  {
    if b == [] {
      assert a + b == a;
    } else {
      var front := b[..|b| - 1];
      HeldAppend(a, front, symbol);
      HeldSplit(b, front, b[|b| - 1], symbol);
      AppendFront(a, b);
      HeldSplit(a + b, a + front, b[|b| - 1], symbol);
    }
  }

  lemma RemoveAt(rows: seq<Row>, i: nat, symbol: string)
    requires i < |rows|
    ensures var rest := rows[..i] + rows[i + 1..];
      && Held(rows, symbol) == Held(rest, symbol) + Share(rows[i], symbol)
      && multiset(rest) == multiset(rows) - multiset{rows[i]}
  {
    assert rows == rows[..i] + ([rows[i]] + rows[i + 1..]);
    assert [rows[i]][..0] == [];
    HeldAppend(rows[..i], [rows[i]] + rows[i + 1..], symbol);
    HeldAppend([rows[i]], rows[i + 1..], symbol);
    HeldAppend(rows[..i], rows[i + 1..], symbol);
  }

  /** Totals do not depend on the order of the rows. */
  lemma {:induction false} HeldForgetsOrder(a: seq<Row>, b: seq<Row>, symbol: string)
    requires multiset(a) == multiset(b)
    ensures Held(a, symbol) == Held(b, symbol)
    decreases |a|
  {
    assert |multiset(a)| == |a| && |multiset(b)| == |b|;
    if a != [] {
      var last := a[|a| - 1];
      assert last in multiset(b);
      var i :| 0 <= i < |b| && b[i] == last;
      LastRemoved(a, symbol);
      RemoveAt(b, i, symbol);
      HeldForgetsOrder(a[..|a| - 1], b[..i] + b[i + 1..], symbol);
    }
  }

  lemma LastRemoved(rows: seq<Row>, symbol: string)
    requires rows != []
    ensures var front, last := rows[..|rows| - 1], rows[|rows| - 1];
      && Held(rows, symbol) == Held(front, symbol) + Share(last, symbol)
      && multiset(front) == multiset(rows) - multiset{last}
  {
    assert rows == rows[..|rows| - 1] + [rows[|rows| - 1]];
  }

  /** The verdict on a book does not depend on the order of the rows. */
  lemma MatchesForgetsOrder(a: seq<Row>, b: seq<Row>, expected: Book)
    requires multiset(a) == multiset(b)
    ensures Matches(a, expected) <==> Matches(b, expected)
  {
    forall symbol ensures Held(a, symbol) == Held(b, symbol) {
      HeldForgetsOrder(a, b, symbol);
    }
    assert AllParse(a) <==> forall row :: row in multiset(a) ==> Balance(row).Some?;
    assert AllParse(b) <==> forall row :: row in multiset(b) ==> Balance(row).Some?;
  }

  // ----- Wrapped totals -----

  /** Some total is beyond 64 bits, yet every held symbol's total wraps to a positive number. */
  ghost predicate MasksOverflow(rows: seq<Row>) {
    && AllParse(rows)
    && (exists symbol :: Held(rows, symbol) > MAX64)
    && forall symbol :: Held(rows, symbol) > 0 ==> Wrap64(Held(rows, symbol)) > 0
  }

  /** The comparison accepts exactly the books it is meant to, for every expected book, unless
      the rows mask an overflow. */
  lemma ComparisonIsExactIff(rows: seq<Row>)
    ensures (forall expected: Book :: ProperBook(expected) ==> (Matches(rows, expected) <==> Meets(rows, expected)))
            <==> !MasksOverflow(rows)
  {
    forall expected: Book | ProperBook(expected) && !MasksOverflow(rows)
      ensures Matches(rows, expected) <==> Meets(rows, expected)
    {
      ExactWithoutMasking(rows, expected);
    }
    if MasksOverflow(rows) {
      var reported := HeldBook(rows);
      var symbol :| Held(rows, symbol) > MAX64;
      assert symbol in reported && reported[symbol] <= MAX64;
      assert Matches(rows, reported) && !Meets(rows, reported) && ProperBook(reported);
    }
  }

  lemma ExactWithoutMasking(rows: seq<Row>, expected: Book)
    requires ProperBook(expected) && !MasksOverflow(rows)
    ensures Matches(rows, expected) <==> Meets(rows, expected)
  {
    if Matches(rows, expected) {
      forall symbol ensures Held(rows, symbol) <= MAX64 {
        assert forall s :: Held(rows, s) > 0 ==> Wrap64(Held(rows, s)) > 0;
      }
    }
    if Meets(rows, expected) {
      forall symbol ensures Held(rows, symbol) <= MAX64 {
      }
    }
  }

  /** The rows as a book. */
  ghost function HeldBook(rows: seq<Row>): (reported: Book)
    ensures Reports(rows, reported)
  {
    HeldBookExists(rows);
    var reported: Book :| Reports(rows, reported);
    reported
  }

  lemma {:induction false} HeldBookExists(rows: seq<Row>)
    ensures exists reported: Book :: Reports(rows, reported)
  {
    if rows == [] {
      var empty: Book := map[];
      assert Reports(rows, empty);
    } else {
      var n := |rows| - 1;
      HeldBookExists(rows[..n]);
      var reported: Book :| Reports(rows[..n], reported);
      ReportNext(rows, n, reported);
      assert rows[..n + 1] == rows;
    }
  }

  /** Totals within 64 bits mask nothing. */
  lemma SmallTotalsAreExact(rows: seq<Row>, expected: Book)
    requires ProperBook(expected) && forall symbol :: Held(rows, symbol) <= MAX64
    ensures Matches(rows, expected) <==> Meets(rows, expected)
  {
    ExactWithoutMasking(rows, expected);
  }

  lemma {:induction false} TrimNumeral(s: string)
    requires s != "" && !WhiteSpace(s[0]) && !WhiteSpace(s[|s| - 1])
    ensures Trim(s) == s
  {
  }

  lemma HeldThree(a: Row, b: Row, c: Row, symbol: string)
    ensures Held([a, b, c], symbol) == Share(a, symbol) + Share(b, symbol) + Share(c, symbol)
  {
    HeldAppend([a], [b], symbol);
    HeldAppend([a] + [b], [c], symbol);
    assert [a, b, c] == [a] + [b] + [c];
    assert [a][..0] == [] && [b][..0] == [] && [c][..0] == [];
  }

  /** A reply that is masked: two balances of 2^63 - 1 and one of 7 pass for a holding of 5. */
  lemma OverflowPassesForFive(symbol: string, big: string, small: string)
    requires Trim(symbol) == symbol && big == IntText(MAX64) && small == IntText(7)
    ensures var rows := [Row(symbol, big), Row(symbol, big), Row(symbol, small)];
      Matches(rows, map[symbol := 5]) && !Meets(rows, map[symbol := 5])
  {
    var rows := [Row(symbol, big), Row(symbol, big), Row(symbol, small)];
    forall s ensures Held(rows, s) == if s == symbol then 2 * MAX64 + 7 else 0 {
      OverflowHeld(symbol, big, small, s);
    }
    OverflowHeld(symbol, big, small, symbol);
    OverflowMasked(rows, symbol);
  }

  lemma OverflowMasked(rows: seq<Row>, symbol: string)
    requires AllParse(rows) && forall s :: Held(rows, s) == if s == symbol then 2 * MAX64 + 7 else 0
    ensures Matches(rows, map[symbol := 5]) && !Meets(rows, map[symbol := 5])
  {
    assert Wrap64(2 * MAX64 + 7) == 5 && Held(rows, symbol) != 5;
  }

  lemma OverflowHeld(symbol: string, big: string, small: string, s: string)
    requires Trim(symbol) == symbol && big == IntText(MAX64) && small == IntText(7)
    ensures var rows := [Row(symbol, big), Row(symbol, big), Row(symbol, small)];
      AllParse(rows) && Held(rows, s) == if s == symbol then 2 * MAX64 + 7 else 0
  {
    var a, c := Row(symbol, big), Row(symbol, small);
    BalanceOf(MAX64, symbol);
    BalanceOf(7, symbol);
    HeldThree(a, a, c, s);
  }

  /** A number's text is its own trimming, and reads back. */
  lemma BalanceOf(n: nat, symbol: string)
    ensures Balance(Row(symbol, IntText(n))) == if Fits64(n) then Some(n) else None
  {
    var text := IntText(n);
    DecimalRoundTrip(n);
    assert Digit(text[0]) && Digit(text[|text| - 1]);
    TrimNumeral(text);
    IntTextParses(n);
  }
}
