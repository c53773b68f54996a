/**
 * The user table's client state: which rows are checked and whether dark
 * mode is on. The new values are computed by pure functions; AppState holds
 * the state cells that the table's event handlers overwrite with them.
 */
module Selection {

  /** A user row as the table receives it. */
  datatype TUser = TUser(id: string, name: string, balance: int, email: string, registeredAt: string, active: bool)

  /** The ids with every occurrence of userId dropped, the others kept in order (filter). */
  function RemoveAll(ids: seq<string>, userId: string): (r: seq<string>)
    ensures forall y :: y in r <==> y in ids && y != userId
    ensures |r| <= |ids|
  {
    if ids == [] then []
    else (if ids[0] == userId then [] else [ids[0]]) + RemoveAll(ids[1..], userId)
  }

  /** No id occurs twice. */
  ghost predicate NoDuplicates(ids: seq<string>)
  {
    forall i, j :: 0 <= i < j < |ids| ==> ids[i] != ids[j]
  }

  /** handleCheckUser: unchecks userId if it is checked, otherwise appends it. */
  function ToggleChecked(checked: seq<string>, userId: string): (r: seq<string>)
    ensures userId in r <==> userId !in checked
    ensures forall y :: y != userId ==> (y in r <==> y in checked)
  {
    if userId in checked then RemoveAll(checked, userId) else checked + [userId]
  }

  /** handleCheckAll: every id of the current page when checked, none otherwise. */
  function CheckAll(isChecked: bool, users: seq<TUser>): (r: seq<string>)
    ensures isChecked ==> |r| == |users| && forall i :: 0 <= i < |users| ==> r[i] == users[i].id
    ensures !isChecked ==> r == []
  {
    if isChecked then seq(|users|, i requires 0 <= i < |users| => users[i].id) else []
  }

  /** A row's checkbox is checked when its id is among the checked ids. */
  function RowChecked(checked: seq<string>, userId: string): (r: bool)
    ensures r <==> exists i :: 0 <= i < |checked| && checked[i] == userId
  {
    userId in checked
  }

  /** toggleTheme: the next value of the dark-mode flag. */
  function NextTheme(isDarkMode: bool): (r: bool)
    ensures r != isDarkMode
  {
    !isDarkMode
  }

  /** Filtering distributes over concatenation, so the kept ids keep their order. */
  lemma {:induction false} RemoveAllDistributes(a: seq<string>, b: seq<string>, userId: string)
    ensures RemoveAll(a + b, userId) == RemoveAll(a, userId) + RemoveAll(b, userId)
  {
    if a == [] {
      assert a + b == b;
    } else {
      assert (a + b)[1..] == a[1..] + b;
      RemoveAllDistributes(a[1..], b, userId);
    }
  }

  /** Filtering keeps a single id other than userId and drops userId itself. */
  lemma RemoveAllSingleton(y: string, userId: string)
    ensures RemoveAll([y], userId) == if y == userId then [] else [y]
  {
    assert [y][1..] == [];
  }

  /** Filtering out an id that is absent changes nothing. */
  lemma {:induction false} RemoveAllAbsent(ids: seq<string>, userId: string)
    requires userId !in ids
    ensures RemoveAll(ids, userId) == ids
  {
    if ids != [] {
      RemoveAllAbsent(ids[1..], userId);
      assert [ids[0]] + ids[1..] == ids;
    }
  }

  /** Filtering keeps every other id as often as it occurred and drops every copy of userId. */
  lemma {:induction false} RemoveAllCounts(ids: seq<string>, userId: string)
    ensures multiset(RemoveAll(ids, userId)) == multiset(ids)[userId := 0]
  {
    if ids != [] {
      RemoveAllCounts(ids[1..], userId);
      assert ids == [ids[0]] + ids[1..];
    }
  }

  /** Filtering never introduces a duplicate. */
  lemma {:induction false} RemoveAllNoDuplicates(ids: seq<string>, userId: string)
    requires NoDuplicates(ids)
    ensures NoDuplicates(RemoveAll(ids, userId))
  {
    if ids != [] {
      assert NoDuplicates(ids[1..]);
      RemoveAllNoDuplicates(ids[1..], userId);
      var rest := RemoveAll(ids[1..], userId);
      assert ids[0] !in ids[1..];
      assert ids[0] !in rest;
    }
  }

  /**
   * Toggling flips whether userId is checked and leaves every other id's
   * checked state as it was.
   */
  lemma ToggleFlipsOnlyThatRow(checked: seq<string>, userId: string, other: string)
    requires other != userId
    ensures RowChecked(ToggleChecked(checked, userId), userId) == !RowChecked(checked, userId)
    ensures RowChecked(ToggleChecked(checked, userId), other) == RowChecked(checked, other)
  {
  }

  /**
   * Unchecking keeps every other id with its multiplicity (its order is kept
   * too, by RemoveAllDistributes and RemoveAllSingleton); checking appends
   * userId at the end.
   */
  lemma ToggleContents(checked: seq<string>, userId: string)
    ensures userId in checked ==>
      && userId !in ToggleChecked(checked, userId)
      && multiset(ToggleChecked(checked, userId)) == multiset(checked)[userId := 0]
    ensures userId !in checked ==> ToggleChecked(checked, userId) == checked + [userId]
  {
    if userId in checked {
      RemoveAllCounts(checked, userId);
    }
  }

  /** Toggling keeps a duplicate-free selection duplicate-free. */
  lemma ToggleKeepsNoDuplicates(checked: seq<string>, userId: string)
    requires NoDuplicates(checked)
    ensures NoDuplicates(ToggleChecked(checked, userId))
  {
    if userId in checked {
      RemoveAllNoDuplicates(checked, userId);
    }
  }

  /** Checking an unchecked row and then unchecking it restores the selection exactly. */
  lemma ToggleTwiceRestores(checked: seq<string>, userId: string)
    requires userId !in checked
    ensures ToggleChecked(ToggleChecked(checked, userId), userId) == checked
  {
    RemoveAllDistributes(checked, [userId], userId);
    RemoveAllAbsent(checked, userId);
    RemoveAllSingleton(userId, userId);
  }

  /**
   * Unchecking a checked row and then checking it again gives back the same
   * set of checked rows (the id moves to the end).
   */
  lemma ToggleTwiceSameRows(checked: seq<string>, userId: string, y: string)
    ensures RowChecked(ToggleChecked(ToggleChecked(checked, userId), userId), y) == RowChecked(checked, y)
  {
  }

  /**
   * After check-all every row of the page is checked and nothing else is;
   * after clearing it no row is checked.
   */
  lemma CheckAllRows(users: seq<TUser>, userId: string)
    ensures RowChecked(CheckAll(true, users), userId) <==> exists i :: 0 <= i < |users| && users[i].id == userId
    ensures !RowChecked(CheckAll(false, users), userId)
  {
    var r := CheckAll(true, users);
    if userId in r {
      var i :| 0 <= i < |r| && r[i] == userId;
      assert users[i].id == userId;
    }
  }

  /** Two theme toggles restore the original theme. */
  lemma ThemeToggleTwice(isDarkMode: bool)
    ensures NextTheme(NextTheme(isDarkMode)) == isDarkMode
  {
  }

  /**
   * The component's state cells: checkedUsers and isDarkMode, which the event
   * handlers overwrite, and the users of the current page, which the fetch
   * sets. Each operation overwrites one cell and no other.
   */
  class AppState {
    var checkedUsers: seq<string>
    var isDarkMode: bool
    var users: seq<TUser>

    /** Initial state: nothing checked, light mode, no users yet. */
    constructor ()
      ensures checkedUsers == [] && !isDarkMode && users == []
    {
      checkedUsers := [];
      isDarkMode := false;
      users := [];
    }

    /** A page of users has arrived and replaces the current one. */
    method LoadUsers(page: seq<TUser>)
      modifies this
      ensures users == page
      ensures checkedUsers == old(checkedUsers) && isDarkMode == old(isDarkMode)
    {
      users := page;
    }

    /** The theme button: dark mode flips. */
    method ToggleTheme()
      modifies this
      ensures isDarkMode == NextTheme(old(isDarkMode))
      ensures checkedUsers == old(checkedUsers) && users == old(users)
    {
      isDarkMode := NextTheme(isDarkMode);
    }

    /** The header checkbox: selects every row of the page, or clears the selection. */
    method HandleCheckAll(isChecked: bool)
      modifies this
      ensures checkedUsers == CheckAll(isChecked, old(users))
      ensures isDarkMode == old(isDarkMode) && users == old(users)
    {
      checkedUsers := CheckAll(isChecked, users);
    }

    /** A row checkbox: toggles that row. */
    method HandleCheckUser(userId: string)
      modifies this
      ensures checkedUsers == ToggleChecked(old(checkedUsers), userId)
      ensures RowChecked(checkedUsers, userId) == !RowChecked(old(checkedUsers), userId)
      ensures isDarkMode == old(isDarkMode) && users == old(users)
    {
      checkedUsers := ToggleChecked(checkedUsers, userId);
    }
  }
}
