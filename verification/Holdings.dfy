/** The holdings read: rows enumerated page by page, continued by cursors, within a page limit. */
module Holdings {
  import opened Wrappers

  // ----- Trimming -----

  /** The Unicode White_Space property. */
  predicate WhiteSpace(c: char) {
    var n := c as int;
    0x9 <= n <= 0xd || n in {0x20, 0x85, 0xa0, 0x1680, 0x2028, 0x2029, 0x202f, 0x205f, 0x3000} || 0x2000 <= n <= 0x200a
  }

  function TrimStart(s: string): string {
    if s != "" && WhiteSpace(s[0]) then TrimStart(s[1..]) else s
  }

  function TrimEnd(s: string): string {
    if s != "" && WhiteSpace(s[|s| - 1]) then TrimEnd(s[..|s| - 1]) else s
  }

  function Trim(s: string): string {
    TrimEnd(TrimStart(s))
  }

  const WHITE_SPACE: set<int> :=
    {0x9, 0xa, 0xb, 0xc, 0xd, 0x20, 0x85, 0xa0, 0x1680, 0x2000, 0x2001, 0x2002, 0x2003, 0x2004, 0x2005, 0x2006,
     0x2007, 0x2008, 0x2009, 0x200a, 0x2028, 0x2029, 0x202f, 0x205f, 0x3000}

  /** The text without the white space at both its ends. */
  ghost predicate Trimmed(s: string, t: string) {
    && (exists front: string, back: string :: s == front + t + back && AllSpace(front) && AllSpace(back))
    && (t != "" ==> t[0] as int !in WHITE_SPACE && t[|t| - 1] as int !in WHITE_SPACE)
  }

  predicate AllSpace(s: string) {
    forall c :: c in s ==> c as int in WHITE_SPACE
  }

  lemma {:induction false} TrimStartExact(s: string) returns (front: string)
    ensures s == front + TrimStart(s) && AllSpace(front)
    ensures TrimStart(s) != "" ==> TrimStart(s)[0] as int !in WHITE_SPACE
  {
    front := "";
    if s != "" && WhiteSpace(s[0]) {
      front := TrimStartExact(s[1..]);
      front := [s[0]] + front;
      assert s == [s[0]] + s[1..];
    }
  }

  lemma {:induction false} TrimEndExact(s: string) returns (back: string)
    ensures s == TrimEnd(s) + back && AllSpace(back)
    ensures TrimEnd(s) != "" ==> TrimEnd(s)[|TrimEnd(s)| - 1] as int !in WHITE_SPACE
  {
    back := "";
    if s != "" && WhiteSpace(s[|s| - 1]) {
      back := TrimEndExact(s[..|s| - 1]);
      back := back + [s[|s| - 1]];
      assert s == s[..|s| - 1] + [s[|s| - 1]];
    }
  }

  /** Trimming removes exactly the white space at both ends. */
  lemma TrimExact(s: string)
    ensures Trimmed(s, Trim(s))
  {
    var front := TrimStartExact(s);
    var back := TrimEndExact(TrimStart(s));
    assert s == front + Trim(s) + back;
  }

  // ----- Enumerating the holdings -----

  /** A holdings row: symbol and balance as the gateway sent them. */
  datatype Row = Row(expcode: string, janqty: string)

  datatype Page = Page(rows: seq<Row>, next: string)

  datatype BookError =
    | ReadFailed(code: int)
    | NonAdvancing
    | Truncated
    | OrdersTruncated
    | OpenOrders(count: nat)
    | UnparseableRows(rows: seq<Row>)
    | Mismatch(missing: set<string>, differing: set<string>, extra: set<string>)

  /** What the gateway answers to each cursor. */
  type Server = string -> Result<Page, int>

  const MAX_BOOK_PAGES: nat := 20

  /** The cursor of the k-th page; None if the chain ends or fails before it. */
  function CursorAt(server: Server, k: nat): Option<string> {
    if k == 0 then Some("") else Follow(server, CursorAt(server, k - 1))
  }

  function Follow(server: Server, cursor: Option<string>): Option<string> {
    match cursor
    case None => None
    case Some(cursor) => NextCursor(server, cursor)
  }

  lemma CursorStep(server: Server, k: nat, next: nat)
    requires next == k + 1
    ensures CursorAt(server, next) == Follow(server, CursorAt(server, k))
  {
  }

  function NextCursor(server: Server, cursor: string): Option<string> {
    match server(cursor)
    case Err(_) => None
    case Ok(page) => if Trim(page.next) == "" then None else Some(Trim(page.next))
  }

  /** The chain's last page is its k-th: its continuation is empty. */
  predicate EndsAt(server: Server, k: nat) {
    CursorAt(server, k).Some? &&
    var reply := server(CursorAt(server, k).value);
    reply.Ok? && Trim(reply.value.next) == ""
  }

  predicate FailsAt(server: Server, k: nat, code: int) {
    CursorAt(server, k).Some? && server(CursorAt(server, k).value) == Err(code)
  }

  /** The chain ends or fails at its k-th page. */
  predicate StopsAt(server: Server, k: nat) {
    CursorAt(server, k).Some? && NextCursor(server, CursorAt(server, k).value).None?
  }

  ghost predicate NeverEnds(server: Server) {
    forall k: nat :: CursorAt(server, k).Some?
  }

  /** The rows of the first `k` pages, in order. */
  function RowsUpTo(server: Server, k: nat): seq<Row> {
    if k == 0 then []
    else
      RowsUpTo(server, k - 1) +
      match CursorAt(server, k - 1)
      case None => []
      case Some(cursor) => match server(cursor) case Ok(page) => page.rows case Err(_) => []
  }

  ghost predicate DistinctCursors(server: Server, n: nat) {
    forall i: nat, j: nat :: i < j <= n ==> CursorAt(server, i) != CursorAt(server, j)
  }

  lemma {:induction false} CursorPrefix(server: Server, i: nat, j: nat)
    requires i <= j && CursorAt(server, j).Some?
    ensures CursorAt(server, i).Some?
    decreases j
  {
    if i < j {
      CursorPrefix(server, i, j - 1);
    }
  }

  /** The cursor `n` pages on. */
  function Onward(server: Server, cursor: Option<string>, n: nat): Option<string> {
    if n == 0 then cursor else Follow(server, Onward(server, cursor, n - 1))
  }

  lemma {:induction false} CursorOnward(server: Server, i: nat, n: nat)
    ensures CursorAt(server, i + n) == Onward(server, CursorAt(server, i), n)
  {
    if n > 0 {
      CursorOnward(server, i, n - 1);
      CursorStep(server, i + (n - 1), i + n);
    }
  }

  /** Where a cursor repeats, so do all that follow. */
  lemma CursorShift(server: Server, i: nat, j: nat, n: nat)
    requires CursorAt(server, i) == CursorAt(server, j)
    ensures CursorAt(server, i + n) == CursorAt(server, j + n)
  {
    CursorOnward(server, i, n);
    CursorOnward(server, j, n);
  }

  lemma CursorReturns(server: Server, i: nat, j: nat, n: nat)
    requires i < j <= n && CursorAt(server, i) == CursorAt(server, j)
    ensures CursorAt(server, n) == CursorAt(server, n - j + i)
  {
    CursorShift(server, i, j, n - j);
  }

  /** A repeated cursor means the chain goes on for ever. */
  lemma {:induction false} RepeatNeverEnds(server: Server, i: nat, j: nat, n: nat)
    requires i < j && CursorAt(server, j).Some? && CursorAt(server, i) == CursorAt(server, j)
    ensures CursorAt(server, n).Some?
    decreases n
  {
    if n <= j {
      CursorPrefix(server, n, j);
    } else {
      CursorReturns(server, i, j, n);
      RepeatNeverEnds(server, i, j, n - j + i);
    }
  }

  /** A chain that ends or fails at one page reads no later one. */
  lemma ChainStops(server: Server, k: nat, n: nat)
    requires StopsAt(server, k)
    ensures CursorAt(server, n).Some? <==> n <= k
  {
    assert CursorAt(server, k + 1).None?;
    if n <= k {
      CursorPrefix(server, n, k);
    } else if CursorAt(server, n).Some? {
      CursorPrefix(server, k + 1, n);
    }
  }

  ghost predicate EndsWithin(server: Server, pages: nat) {
    exists k: nat :: k < pages && EndsAt(server, k)
  }

  ghost predicate FailsWithin(server: Server, pages: nat, code: int) {
    exists k: nat :: k < pages && FailsAt(server, k, code)
  }

  /** What a read of at most `limit` pages means: it succeeds exactly when the chain ends within
      them, with every page's rows in order; it reports a failure exactly when a page within them
      fails; and otherwise refuses a repeated cursor, or gives up on a chain still continuing. */
  ghost predicate Verdict(server: Server, limit: nat, r: Result<seq<Row>, BookError>) {
    && (r.Ok? <==> EndsWithin(server, limit))
    && (forall k: nat :: k < limit && EndsAt(server, k) ==> r == Ok(RowsUpTo(server, k + 1)))
    && (r.Err? ==> r.error.ReadFailed? || r.error.NonAdvancing? || r.error.Truncated?)
    && (forall code :: r == Err(ReadFailed(code)) <==> FailsWithin(server, limit, code))
    && (r == Err(NonAdvancing) <==> CursorAt(server, limit).Some? && !DistinctCursors(server, limit))
    && (r == Err(Truncated) <==> CursorAt(server, limit).Some? && DistinctCursors(server, limit))
  }

  lemma VerdictFailed(server: Server, k: nat, limit: nat, code: int)
    requires k < limit && FailsAt(server, k, code)
    ensures Verdict(server, limit, Err(ReadFailed(code)))
  {
    Settled(server, k, limit);
  }

  lemma VerdictEnded(server: Server, k: nat, limit: nat)
    requires k < limit && EndsAt(server, k)
    ensures Verdict(server, limit, Ok(RowsUpTo(server, k + 1)))
  {
    Settled(server, k, limit);
  }

  lemma VerdictTruncated(server: Server, limit: nat)
    requires CursorAt(server, limit).Some? && DistinctCursors(server, limit)
    ensures Verdict(server, limit, Err(Truncated))
  {
    StillGoing(server, limit);
  }

  /** The cursors met so far, after the first. */
  ghost predicate Met(server: Server, page: nat, seen: seq<string>) {
    |seen| == page && forall k: nat :: k < page ==> CursorAt(server, k + 1) == Some(seen[k])
  }

  /** One more page read. */
  lemma PageRead(server: Server, page: nat, cursor: string)
    requires CursorAt(server, page) == Some(cursor)
    ensures server(cursor).Err? ==> FailsAt(server, page, server(cursor).error)
    ensures server(cursor).Ok? ==>
              var next := Trim(server(cursor).value.next);
              && RowsUpTo(server, page + 1) == RowsUpTo(server, page) + server(cursor).value.rows
              && (if next == "" then EndsAt(server, page) else CursorAt(server, page + 1) == Some(next))
  {
  }

  method CollectHoldings(server: Server) returns (r: Result<seq<Row>, BookError>)
    ensures Verdict(server, 20, r)
    ensures r == Err(NonAdvancing) ==> NeverEnds(server)
  {
    var rows: seq<Row> := [];
    var cursor := "";
    var seen: seq<string> := [];
    for page := 0 to MAX_BOOK_PAGES
      invariant CursorAt(server, page) == Some(cursor) && rows == RowsUpTo(server, page)
      invariant Met(server, page, seen) && DistinctCursors(server, page)
    {
      PageRead(server, page, cursor);
      var reply := server(cursor);
      if reply.Err? {
        VerdictFailed(server, page, MAX_BOOK_PAGES, reply.error);
        return Err(ReadFailed(reply.error));
      }
      rows := rows + reply.value.rows;
      var next := Trim(reply.value.next);
      if next == "" {
        VerdictEnded(server, page, MAX_BOOK_PAGES);
        return Ok(rows);
      }
      if next == cursor || next in seen {
        Repeated(server, page, next, seen, MAX_BOOK_PAGES);
        return Err(NonAdvancing);
      }
      NewCursor(server, page, next, seen);
      seen := seen + [next];
      cursor := next;
    }
    VerdictTruncated(server, MAX_BOOK_PAGES);
    return Err(Truncated);
  }

  /** A chain stops at one page only. */
  lemma Settled(server: Server, k: nat, limit: nat)
    requires k < limit && StopsAt(server, k)
    ensures CursorAt(server, limit).None?
    ensures forall n: nat :: EndsAt(server, n) ==> n == k
    ensures forall n: nat, code :: FailsAt(server, n, code) ==> n == k
  {
    ChainStops(server, k, limit);
    forall n: nat | StopsAt(server, n) ensures n == k {
      ChainStops(server, k, n);
      ChainStops(server, n, k);
    }
    forall n: nat, code | FailsAt(server, n, code) ensures n == k {
      assert StopsAt(server, n);
    }
    forall n: nat | EndsAt(server, n) ensures n == k {
      assert StopsAt(server, n);
    }
  }

  /** A chain still continuing at the limit stopped nowhere before it. */
  lemma StillGoing(server: Server, limit: nat)
    requires CursorAt(server, limit).Some?
    ensures !EndsWithin(server, limit) && forall code :: !FailsWithin(server, limit, code)
  {
    forall k: nat, code | k < limit ensures !EndsAt(server, k) && !FailsAt(server, k, code) {
      CursorPrefix(server, k + 1, limit);
    }
  }

  lemma Repeated(server: Server, page: nat, next: string, seen: seq<string>, limit: nat)
    requires page < limit && next != "" && CursorAt(server, page + 1) == Some(next)
    requires Met(server, page, seen) && (CursorAt(server, page) == Some(next) || next in seen)
    ensures NeverEnds(server) && Verdict(server, limit, Err(NonAdvancing))
  {
    var i: nat :| i <= page && CursorAt(server, i) == Some(next) by {
      if CursorAt(server, page) != Some(next) {
        var k :| 0 <= k < |seen| && seen[k] == next;
        assert CursorAt(server, k + 1) == Some(next);
      }
    }
    forall n: nat ensures CursorAt(server, n).Some? {
      RepeatNeverEnds(server, i, page + 1, n);
    }
    StillGoing(server, limit);
  }

  lemma NewCursor(server: Server, page: nat, next: string, seen: seq<string>)
    requires next != "" && CursorAt(server, page + 1) == Some(next) && next !in seen
    requires Met(server, page, seen) && DistinctCursors(server, page)
    ensures DistinctCursors(server, page + 1) && Met(server, page + 1, seen + [next])
  {
    forall i: nat | i <= page ensures CursorAt(server, i) != CursorAt(server, page + 1) {
      if i > 0 {
        assert CursorAt(server, (i - 1) + 1) == Some(seen[i - 1]);
      }
    }
  }
}
