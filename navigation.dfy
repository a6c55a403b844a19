/**
 * The header's highlighting of the current section: a menu entry is active
 * on its own path and on every path below it.
 */
module Navigation {

  /** `s.startsWith(prefix)`. */
  predicate StartsWith(s: string, prefix: string) {
    |prefix| <= |s| && s[..|prefix|] == prefix
  }

  /** `isActive(path)` for the current `pathname`. */
  predicate IsActive(pathname: string, path: string) {
    pathname == path || StartsWith(pathname, path + "/")
  }

  /** The desktop and mobile menu entries and the admin section. */
  const HomePath := "/"
  const TodoPath := "/todo"
  const BoardPath := "/board"
  const AdminPath := "/admin"
  const AdminUsersPath := "/admin/users"

  /** Active exactly on the path itself and on the paths one separator below it. */
  lemma IsActiveIff(pathname: string, path: string)
    ensures IsActive(pathname, path) <==> pathname == path || exists rest :: pathname == path + "/" + rest
  {
    if StartsWith(pathname, path + "/") {
      var rest := pathname[|path| + 1..];
      assert pathname == pathname[..|path| + 1] + rest;
    }
    if exists rest :: pathname == path + "/" + rest {
      var rest :| pathname == path + "/" + rest;
      assert pathname[..|path + "/"|] == path + "/";
    }
  }

  /** A path that only extends the text of `path` with a character other than
      the separator is a different section. */
  lemma NotActiveOnLongerName(path: string, c: char, rest: string)
    requires c != '/'
    ensures !IsActive(path + [c] + rest, path)
  {
    var p := path + [c] + rest;
    assert p[|path|] == c;
    assert p != path by { assert |p| > |path|; }
    assert p[..|path| + 1][|path|] == c;
    assert (path + "/")[|path|] == '/';
  }

  /** The admin entry is highlighted on the users page. */
  lemma AdminActiveOnUsersPage()
    ensures IsActive(AdminUsersPath, AdminPath)
  {
    assert AdminUsersPath == AdminPath + "/" + "users";
    IsActiveIff(AdminUsersPath, AdminPath);
  }

  /** The todo entry is not highlighted on '/todos'. */
  lemma TodoNotActiveOnTodos()
    ensures !IsActive("/todos", TodoPath)
  {
    assert "/todos" == TodoPath + ['s'] + "";
    NotActiveOnLongerName(TodoPath, 's', "");
  }

  /** The home entry's sub-route prefix is '//', so it is highlighted only on '/'
      itself or on paths that begin with two slashes. */
  lemma HomeActive(pathname: string)
    ensures IsActive(pathname, HomePath) <==> pathname == "/" || StartsWith(pathname, "//")
  {
    assert HomePath + "/" == "//";
  }

  /** No pathname highlights two of the three menu entries. */
  lemma AtMostOneMenuEntry(pathname: string)
    ensures !(IsActive(pathname, HomePath) && IsActive(pathname, TodoPath))
    ensures !(IsActive(pathname, HomePath) && IsActive(pathname, BoardPath))
    ensures !(IsActive(pathname, TodoPath) && IsActive(pathname, BoardPath))
  {
    assert HomePath + "/" == "//";
    assert TodoPath + "/" == "/todo/";
    assert BoardPath + "/" == "/board/";
    if IsActive(pathname, TodoPath) {
      assert |pathname| >= 5 && pathname[1] == 't';
    }
    if IsActive(pathname, BoardPath) {
      assert |pathname| >= 6 && pathname[1] == 'b';
    }
    if IsActive(pathname, HomePath) {
      assert |pathname| == 1 || pathname[1] == '/';
    }
  }
}
