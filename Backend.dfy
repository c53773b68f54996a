/**
 * The mock user API: the fixed list of 100 generated users and the
 * page-slicing arithmetic of the users endpoint.
 */
module Backend {
  import opened Wrappers

  /** A point in time (milliseconds since the epoch), as a Date holds it. */
  type Instant = int

  /**
   * A user record. The server stores it with a Date (D = Instant) and sends
   * it with that date turned into text (D = string).
   */
  datatype UserRecord<D> = UserRecord(id: string, name: string, balance: int, email: string, RegisteredAt: D, active: bool)

  /** What the generator takes from Math.random() and the clock for one user. */
  datatype Draw = Draw(balance: int, active: bool, createdAt: Instant)

  /** The response body of the users endpoint. */
  datatype UsersResponse = UsersResponse(users: seq<UserRecord<string>>, totalUsers: nat, totalPages: int, currentPage: int)

  const UserCount: nat := 100
  const DefaultPage: int := 1
  const DefaultLimit: int := 10

  function DigitChar(d: nat): char
    requires d < 10
  {
    (48 + d) as char
  }

  /** The decimal notation of n, as String(n) writes a non-negative integer. */
  function NatToString(n: nat): (s: string)
    ensures 1 <= |s|
    ensures n < 10 <==> |s| == 1
    ensures forall i :: 0 <= i < |s| ==> '0' <= s[i] <= '9'
    ensures n >= 10 ==> s[0] != '0'
    decreases n
  {
    if n < 10 then [DigitChar(n)] else NatToString(n / 10) + [DigitChar(n % 10)]
  }

  /** The value of a decimal digit. */
  function DigitValue(c: char): nat
  {
    if '0' <= c <= '9' then c as int - 48 else 0
  }

  /** The number a string of decimal digits denotes, most significant digit first. */
  function DecimalValue(s: string): nat
  {
    if s == [] then 0 else DecimalValue(s[..|s| - 1]) * 10 + DigitValue(s[|s| - 1])
  }

  /** The digits NatToString writes denote n. */
  lemma {:induction false} NatToStringValue(n: nat)
    ensures DecimalValue(NatToString(n)) == n
    decreases n
  {
    var s := NatToString(n);
    if n < 10 {
      assert s[..0] == [];
    } else {
      assert s[..|s| - 1] == NatToString(n / 10);
      NatToStringValue(n / 10);
    }
  }

  /** Different numbers have different decimal notations. */
  lemma {:induction false} NatToStringInjective(a: nat, b: nat)
    requires NatToString(a) == NatToString(b)
    ensures a == b
  {
    var sa, sb := NatToString(a), NatToString(b);
    if a >= 10 && b >= 10 {
      assert sa[..|sa| - 1] == NatToString(a / 10);
      assert sb[..|sb| - 1] == NatToString(b / 10);
      NatToStringInjective(a / 10, b / 10);
      assert DigitChar(a % 10) == sa[|sa| - 1] == sb[|sb| - 1] == DigitChar(b % 10);
    } else {
      assert sa[0] == sb[0];
    }
  }

  /** The user generated at position i of the list. */
  function GenerateUser(i: nat, draw: Draw): (u: UserRecord<Instant>)
    ensures u.id == NatToString(i + 1)
    ensures u.name == "User " + u.id && u.email == "user" + u.id + "@example.com"
    ensures u.balance == draw.balance && u.active == draw.active && u.RegisteredAt == draw.createdAt
  {
    var n := NatToString(i + 1);
    UserRecord(n, "User " + n, draw.balance, "user" + n + "@example.com", draw.createdAt, draw.active)
  }

  /**
   * The list of users built once at start-up. Balance, status and creation
   * time come from the draws and are otherwise unconstrained.
   */
  function AllUsers(draws: nat -> Draw): (users: seq<UserRecord<Instant>>)
    ensures |users| == UserCount
  {
    seq(UserCount, i requires 0 <= i => GenerateUser(i, draws(i)))
  }

  /**
   * The user at position i has id i+1, name "User i+1" and email
   * "useri+1@example.com", so no two users share an id.
   */
  lemma GeneratedUsersDistinct(draws: nat -> Draw)
    ensures var users := AllUsers(draws);
      && (forall i :: 0 <= i < |users| ==>
            && users[i].id == NatToString(i + 1)
            && users[i].name == "User " + users[i].id
            && users[i].email == "user" + users[i].id + "@example.com")
      && (forall i, j :: 0 <= i < j < |users| ==> users[i].id != users[j].id)
  {
    var users := AllUsers(draws);
    forall i | 0 <= i < |users|
      ensures users[i].id == NatToString(i + 1)
      ensures users[i].name == "User " + users[i].id
      ensures users[i].email == "user" + users[i].id + "@example.com"
    {
      UserAt(draws, i);
    }
    forall i, j | 0 <= i < j < |users|
      ensures users[i].id != users[j].id
    {
      UserAt(draws, i);
      UserAt(draws, j);
      if users[i].id == users[j].id {
        NatToStringInjective(i + 1, j + 1);
      }
    }
  }

  lemma UserAt(draws: nat -> Draw, i: nat)
    requires i < UserCount
    ensures AllUsers(draws)[i] == GenerateUser(i, draws(i))
  {
  }

  /** A query parameter read as parseInt(q) || fallback: NaN, a missing value and 0 all give the fallback. */
  function QueryInt(parsed: Option<int>, fallback: int): (v: int)
    ensures parsed.Some? && parsed.value != 0 ==> v == parsed.value
    ensures parsed.None? || parsed == Some(0) ==> v == fallback
  {
    match parsed
    case Some(x) => if x != 0 then x else fallback
    case None => fallback
  }

  /** Where a relative slice index falls in a list of length len: negative indices count from the end. */
  function SliceIndex(i: int, len: nat): (r: nat)
    ensures r <= len
    ensures 0 <= i <= len ==> r == i
    ensures len <= i ==> r == len
    ensures i + len <= 0 ==> r == 0
  {
    if i < 0 then (if len + i < 0 then 0 else len + i) else if i < len then i else len
  }

  /** A negative index within the list stands for the index it reaches counting back from the end. */
  lemma SliceIndexFromEnd(i: int, len: nat)
    requires i < 0 <= len + i
    ensures SliceIndex(i, len) == SliceIndex(len + i, len)
  {
  }

  /** Array.prototype.slice(start, end) on a list. */
  function Slice<T>(s: seq<T>, start: int, end: int): (r: seq<T>)
    ensures |r| <= |s|
  {
    var from, to := SliceIndex(start, |s|), SliceIndex(end, |s|);
    if from < to then s[from..to] else []
  }

  /** Math.ceil(n / d) for a non-zero integer divisor. */
  function CeilDiv(n: nat, d: int): (q: int)
    requires d != 0
    ensures d > 0 ==> q >= 0
    ensures d < 0 ==> q <= 0
  {
    if d > 0 then (n + d - 1) / d else -(n / -d)
  }

  /** The first index of a page's window; never negative for page >= 1 and limit >= 0. */
  function StartIndex(page: int, limit: int): (r: int)
    ensures page >= 1 && limit >= 0 ==> r >= 0
  {
    (page - 1) * limit
  }

  /** The index just past a page's window: limit entries after its start. */
  function EndIndex(page: int, limit: int): (r: int)
    ensures r == StartIndex(page, limit) + limit
  {
    page * limit
  }

  /** The stored user as it is sent: the date becomes text, every other field is kept. */
  function FormatUser(u: UserRecord<Instant>, toISOString: Instant -> string): (r: UserRecord<string>)
    ensures r.id == u.id && r.name == u.name && r.balance == u.balance
    ensures r.email == u.email && r.active == u.active
    ensures r.RegisteredAt == toISOString(u.RegisteredAt)
  {
    UserRecord(u.id, u.name, u.balance, u.email, toISOString(u.RegisteredAt), u.active)
  }

  /** The users endpoint: one page of users plus the totals and the page echoed back. */
  function ListUsers(pageQuery: Option<int>, limitQuery: Option<int>, allUsers: seq<UserRecord<Instant>>, toISOString: Instant -> string): (r: UsersResponse)
    ensures r.currentPage == QueryInt(pageQuery, DefaultPage) && r.totalUsers == |allUsers|
    ensures |r.users| <= |allUsers|
  {
    var page := QueryInt(pageQuery, DefaultPage);
    var limit := QueryInt(limitQuery, DefaultLimit);
    var users := Slice(allUsers, StartIndex(page, limit), EndIndex(page, limit));
    UsersResponse(
      seq(|users|, i requires 0 <= i < |users| => FormatUser(users[i], toISOString)),
      |allUsers|,
      CeilDiv(|allUsers|, limit),
      page)
  }

  /** The page and limit in effect are never 0, and the response echoes the page and counts every user. */
  lemma ResponseEchoesQuery(pageQuery: Option<int>, limitQuery: Option<int>, allUsers: seq<UserRecord<Instant>>, toISOString: Instant -> string)
    ensures var r := ListUsers(pageQuery, limitQuery, allUsers, toISOString);
      && r.currentPage == QueryInt(pageQuery, DefaultPage) != 0
      && QueryInt(limitQuery, DefaultLimit) != 0
      && r.totalUsers == |allUsers|
      && r.totalPages == CeilDiv(|allUsers|, QueryInt(limitQuery, DefaultLimit))
  {
  }

  /** The window of a page is exactly limit entries wide and starts where the previous page's ends. */
  lemma WindowWidth(page: int, limit: int)
    ensures StartIndex(page + 1, limit) == EndIndex(page, limit)
  {
  }

  lemma MulMonotone(a: int, b: int, c: int)
    requires a <= b && 0 <= c
    ensures a * c <= b * c
  {
  }

  /**
   * For a positive limit the page count is the ceiling of n / limit:
   * the last page is the first one whose window reaches past n.
   */
  lemma TotalPagesIsCeiling(n: nat, limit: int)
    requires limit >= 1
    ensures (CeilDiv(n, limit) - 1) * limit < n <= CeilDiv(n, limit) * limit
    ensures CeilDiv(n, limit) >= 0
  {
    var m := n + limit - 1;
    var q := m / limit;
    assert q * limit + m % limit == m;
  }

  /** For a negative limit Math.ceil rounds the negative quotient up, towards zero. */
  lemma TotalPagesNegativeLimit(n: nat, limit: int)
    requires limit <= -1
    ensures CeilDiv(n, limit) * limit <= n < (CeilDiv(n, limit) - 1) * limit
    ensures CeilDiv(n, limit) <= 0
  {
    var q := n / -limit;
    assert q * -limit + n % -limit == n;
  }

  /**
   * For page >= 1 and limit >= 1 the users sent are the stored users from
   * StartIndex up to EndIndex (cut at the end of the list), in their stored
   * order and with their dates formatted, so at most limit of them.
   */
  lemma PageIsContiguousSlice(pageQuery: Option<int>, limitQuery: Option<int>, allUsers: seq<UserRecord<Instant>>, toISOString: Instant -> string)
    requires QueryInt(pageQuery, DefaultPage) >= 1 && QueryInt(limitQuery, DefaultLimit) >= 1
    ensures var page, limit := QueryInt(pageQuery, DefaultPage), QueryInt(limitQuery, DefaultLimit);
      var start, end := StartIndex(page, limit), EndIndex(page, limit);
      var r := ListUsers(pageQuery, limitQuery, allUsers, toISOString);
      && 0 <= start
      && |r.users| == (if |allUsers| <= start then 0 else if end < |allUsers| then limit else |allUsers| - start)
      && |r.users| <= limit
      && forall j :: 0 <= j < |r.users| ==> r.users[j] == FormatUser(allUsers[start + j], toISOString)
  {
    var page, limit := QueryInt(pageQuery, DefaultPage), QueryInt(limitQuery, DefaultLimit);
    MulMonotone(0, page - 1, limit);
    WindowWidth(page, limit);
  }

  /**
   * For page >= 1 and limit >= 1 a page has users exactly when it is one of
   * the pages 1..totalPages; a page past the last one is empty.
   */
  lemma PageNonEmptyIff(pageQuery: Option<int>, limitQuery: Option<int>, allUsers: seq<UserRecord<Instant>>, toISOString: Instant -> string)
    requires QueryInt(pageQuery, DefaultPage) >= 1 && QueryInt(limitQuery, DefaultLimit) >= 1
    ensures var r := ListUsers(pageQuery, limitQuery, allUsers, toISOString);
      |r.users| > 0 <==> r.currentPage <= r.totalPages
  {
    var page, limit := QueryInt(pageQuery, DefaultPage), QueryInt(limitQuery, DefaultLimit);
    var n := |allUsers|;
    var q := CeilDiv(n, limit);
    PageIsContiguousSlice(pageQuery, limitQuery, allUsers, toISOString);
    TotalPagesIsCeiling(n, limit);
    if page <= q {
      MulMonotone(page - 1, q - 1, limit);
    } else {
      MulMonotone(q, page - 1, limit);
    }
  }

  /**
   * On the generated list, a page's users carry the consecutive ids
   * StartIndex+1, StartIndex+2, ...
   */
  lemma PageIdsConsecutive(pageQuery: Option<int>, limitQuery: Option<int>, draws: nat -> Draw, toISOString: Instant -> string)
    requires QueryInt(pageQuery, DefaultPage) >= 1 && QueryInt(limitQuery, DefaultLimit) >= 1
    ensures var start := StartIndex(QueryInt(pageQuery, DefaultPage), QueryInt(limitQuery, DefaultLimit));
      var r := ListUsers(pageQuery, limitQuery, AllUsers(draws), toISOString);
      0 <= start && forall j :: 0 <= j < |r.users| ==> r.users[j].id == NatToString(start + j + 1)
  {
    var start := StartIndex(QueryInt(pageQuery, DefaultPage), QueryInt(limitQuery, DefaultLimit));
    var r := ListUsers(pageQuery, limitQuery, AllUsers(draws), toISOString);
    PageIsContiguousSlice(pageQuery, limitQuery, AllUsers(draws), toISOString);
    forall j | 0 <= j < |r.users|
      ensures r.users[j].id == NatToString(start + j + 1)
    {
      UserAt(draws, start + j);
    }
  }

  /** With no query parameters the first ten users are sent, with ids 1 to 10, out of ten pages. */
  lemma DefaultQueryFirstTen(draws: nat -> Draw, toISOString: Instant -> string)
    ensures var r := ListUsers(None, None, AllUsers(draws), toISOString);
      && |r.users| == 10
      && (forall j :: 0 <= j < 10 ==> r.users[j].id == NatToString(j + 1))
      && r.totalUsers == 100 && r.totalPages == 10 && r.currentPage == 1
  {
    PageIdsConsecutive(None, None, draws, toISOString);
  }

  /**
   * A negative page is not rejected: page -1 with the default limit slices
   * from 20 before the end to 10 before the end, sending the users with ids 81 to 90.
   */
  lemma NegativePageCountsFromEnd(draws: nat -> Draw, toISOString: Instant -> string)
    ensures var r := ListUsers(Some(-1), None, AllUsers(draws), toISOString);
      && |r.users| == 10
      && (forall j :: 0 <= j < 10 ==> r.users[j].id == NatToString(81 + j))
      && r.currentPage == -1
  {
    var r := ListUsers(Some(-1), None, AllUsers(draws), toISOString);
    forall j | 0 <= j < 10
      ensures r.users[j].id == NatToString(81 + j)
    {
      UserAt(draws, 80 + j);
    }
  }

  /**
   * Negative queries do not always count from the end: page -10 with the
   * default limit slices from -110 to -100, and page -1 with limit -10 from
   * 20 to 10; both windows are empty.
   */
  lemma NegativeQueriesCanBeEmpty(draws: nat -> Draw, toISOString: Instant -> string)
    ensures ListUsers(Some(-10), None, AllUsers(draws), toISOString).users == []
    ensures ListUsers(Some(-1), Some(-10), AllUsers(draws), toISOString).users == []
  {
  }
}
