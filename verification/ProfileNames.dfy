/** What becomes of the name in a path: where it is hidden from the log, and where it is not. */
module ProfileNames {
  import opened Wrappers
  import opened Texts
  import opened FrameLocations

  // ----- the profile name

  /** A location below a home directory is logged with a tilde, whatever the profile is called, or not at all. */
  lemma {:induction false} ProfileHidden(root: Text, name: Text, rest: Text)
    requires HomeOf(root).Some? && HomeOf(root).value.length == |root|
    requires name != [] && HomeOf(root).value.separator !in name
    ensures var separator := HomeOf(root).value.separator;
      Locate(root + name + [separator] + rest) in {None, Some(root + [U('~')] + [separator] + rest)}
  {
    var separator := HomeOf(root).value.separator;
    var location := root + name + [separator] + rest;
    HomeRoot(root);
    Prefix(root, name, separator, rest);
    LocationIsPath(root, location);
    if ParsePosition(location).Some? {
      var p := ParsePosition(location).value;
      TailHasNo(p, separator);
      hide *;
      var below := RestOfPath(root + name, separator, rest, p.path, Tail(p));
      HomeLocated(location, p, root, name, below);
      Regroup(root + [U('~')] + [separator], below, Tail(p));
    } else {
      hide HomeOf, ParsePosition;
      assert Locate(location) == None;
    }
  }

  lemma Prefix(root: Text, name: Text, separator: Unit, rest: Text)
    ensures var t := root + name + [separator] + rest; root <= t && t[..|root|] == root == root[..|root|]
  {
  }

  function Tail(p: Position): Text {
    [U(':')] + (p.line + [U(':')] + p.col)
  }

  lemma TailHasNo(p: Position, separator: Unit)
    requires separator == U('/') || separator == U('\\')
    requires IsNumber(p.line) && IsNumber(p.col)
    ensures separator !in Tail(p) && Print(p) == p.path + Tail(p)
  {
    forall u | u in Tail(p) ensures u != separator {
      assert u == U(':') || u in p.line || u in p.col;
    }
  }

  lemma {:induction false} HomeLocated(location: Text, p: Position, root: Text, name: Text, below: Text)
    requires location != NATIVE && location != ANONYMOUS && ParsePosition(location) == Some(p)
    requires HomeOf(root).Some? && HomeOf(root).value.length == |root|
    requires name != [] && HomeOf(root).value.separator !in name
    requires p.path == root + name + [HomeOf(root).value.separator] + below
    ensures var kept := root + [U('~')] + [HomeOf(root).value.separator] + below;
      Locate(location) in {None, Some(kept + Tail(p))}
  {
    var path := p.path;
    hide HomeOf, ParsePosition, Allowed, RewriteHome, HasQuery;
    Prefix(root, name, HomeOf(root).value.separator, below);
    SameHome(root, path);
    HomeIsNoUrl(path);
    ProfileIs(path, root, name, below);
    var q := p.(path := RewriteHome(path));
    assert Locate(location) in {None, Some(Print(q))};
    assert Print(q) == q.path + Tail(p);
  }

  lemma HomeIsNoUrl(path: Text)
    requires HomeOf(path).Some?
    ensures !HasQuery(path)
  {
    HomeRoot(path);
    NoUrl(path);
  }

  lemma LocationIsPath(root: Text, location: Text)
    requires HomeOf(root).Some? && root <= location
    ensures location != NATIVE && location != ANONYMOUS
  {
    HomeRoot(root);
    assert location[0] == root[0] && location[1] == root[1] && location[2] == root[2];
    assert NATIVE[0] == U('n') && NATIVE[1] == U('a') && ANONYMOUS[0] == U('<') && ANONYMOUS[1] == U('a');
  }

  /** Text behind the last separator is cut off behind it. */
  lemma RestOfPath(before: Text, separator: Unit, rest: Text, path: Text, tail: Text) returns (below: Text)
    requires separator !in tail && path + tail == before + [separator] + rest
    ensures path == before + [separator] + below && rest == below + tail
  {
    var t := path + tail;
    assert t[|before|] == separator;
    forall k | |path| <= k < |t| ensures t[k] != separator {
      assert t[k] == tail[k - |path|];
    }
    below := path[|before| + 1..];
    assert path == t[..|path|] && t[|before| + 1..] == rest;
    assert path[..|before| + 1] == before + [separator];
    assert rest == t[|before| + 1..|path|] + t[|path|..];
  }

  lemma {:induction false} ProfileIs(path: Text, root: Text, name: Text, below: Text)
    requires HomeOf(path).Some? && HomeOf(path).value.length == |root|
    requires name != [] && HomeOf(path).value.separator !in name
    requires path == root + name + [HomeOf(path).value.separator] + below
    ensures RewriteHome(path) == root + [U('~')] + [HomeOf(path).value.separator] + below
  {
    hide HomeOf;
    var separator := HomeOf(path).value.separator;
    var tail := path[|root|..];
    assert tail == name + [separator] + below;
    hide IndexOf;
    assert tail[|name|] == separator && forall i | 0 <= i < |name| :: tail[i] == name[i];
    assert IndexOf(tail, separator) == |name|;
    assert path[..|root|] == root && path[|root| + |name|..] == [separator] + below;
    var keep := root + [U('~')];
    assert keep + ([separator] + below) == keep + [separator] + below;
  }

  /** The rewriting stops at bare paths: in a `file:` URL the profile name is logged as it is. */
  lemma FileUrlKeepsProfile(name: Text)
    requires forall u | u in name :: U('a') <= u <= U('z')
    ensures var location := FILE + Ascii("/home/") + name + Ascii("/x.js:1:2");
      Locate(location) == Some(location)
  {
    hide Ascii, Clean, IsNumber, Print, Locate;
    var root, file := FILE + Ascii("/home/"), Ascii("/x.js");
    var p := Position(root + name + file, Ascii("1"), Ascii("2"));
    FileUrlPrints(root + name, p);
    FileUrlIsClean(root, name, file);
    OneAndTwo();
    CleanIsLocated(Print(p));
  }

  lemma FileUrlPrints(folder: Text, p: Position)
    requires p == Position(folder + Ascii("/x.js"), Ascii("1"), Ascii("2"))
    ensures folder + Ascii("/x.js:1:2") == Print(p)
  {
    var file := Ascii("/x.js");
    assert Ascii("/x.js:1:2") == file + Tail(p);
    Regroup(folder, file, Tail(p));
  }

  lemma OneAndTwo()
    ensures IsNumber(Ascii("1")) && IsNumber(Ascii("2"))
  {
    assert Ascii("1") == [U('1')] && Ascii("2") == [U('2')];
  }

  predicate IsPlain(u: Unit) {
    U('a') <= u <= U('z') || U('.') <= u <= U(':')
  }

  lemma {:induction false} FileUrlIsClean(root: Text, name: Text, file: Text)
    requires root == FILE + Ascii("/home/") && file == Ascii("/x.js")
    requires forall u | u in name :: U('a') <= u <= U('z')
    ensures Clean(root + name + file)
  {
    var path := root + name + file;
    assert forall u | u in root :: IsPlain(u);
    assert forall u | u in file :: IsPlain(u);
    assert forall i | 0 <= i < |FILE| :: path[i] == FILE[i] == Lower(FILE[i]);
    JsIsSource(root + name);
    hide IsSource;
    assert LowerStartsWith(path, FILE);
    assert path[0] == U('f') && path[1] == U('i') && NODE[0] == U('n');
    hide LowerStartsWith;
    assert !LowerStartsWith(path, NODE) by { NotNode(path); }
    assert HomeOf(path) == None;
    hide HomeOf, HasScheme;
    forall u | u in path ensures IsPlain(u) {
      assert u in root || u in name || u in file;
    }
    assert forall u | IsPlain(u) :: !IsSpace(u);
  }

  lemma NotNode(path: Text)
    requires path != [] && path[0] == U('f')
    ensures !LowerStartsWith(path, NODE)
  {
    assert NODE[0] == U('n');
  }

  lemma JsIsSource(x: Text)
    ensures IsSource(x + Ascii("/x.js"))
  {
    var e, t := Ascii(".js"), x + Ascii("/x.js");
    assert e == EXTENSIONS[0] && e in EXTENSIONS;
    assert t[|t| - 3..] == e;
    assert FoldEndsWith(t, e);
  }

  // ----- exactly when a name in a path does not show

  /** A name as it may stand between two separators of a path. */
  predicate IsSegment(t: Text) {
    t != [] && forall u | u in t ::
      !IsSpace(u) && u != U('/') && u != U('\\') && u != U('?') && u != U('#') && u != U('@')
  }

  predicate IsSeparator(u: Unit) {
    u == U('/') || u == U('\\')
  }

  predicate Queried(root: Text) {
    HasQuery(root) && (U('?') in root || U('#') in root)
  }

  /** Nothing separates the name from the home directory before it, and something separates it from what is below. */
  predicate InProfile(root: Text, separator: Unit, rest: Text) {
    match HomeOf(root)
    case None => false
    case Some(h) => h.separator !in root[h.length..] && h.separator in [separator] + rest
  }

  /** Behind the query of a URL, or in the place of the profile name. */
  predicate Hidden(root: Text, separator: Unit, rest: Text) {
    Queried(root) || InProfile(root, separator, rest)
  }

  /** What is logged of a path that has been parsed. */
  function Logged(path: Text): Text {
    RewriteHome(StripQuery(path))
  }

  /** The path of a location ends behind the name; line and column are those of what follows it. */
  lemma Parsed(root: Text, name: Text, separator: Unit, rest: Text) returns (q: Position)
    requires IsSegment(name) && IsSeparator(separator)
    requires Locate(root + name + [separator] + rest).Some?
    ensures ParsePosition([separator] + rest) == Some(q) && q.path != [] && q.path[0] == separator
    ensures [separator] + rest == q.path + Tail(q) && IsNumber(q.line) && IsNumber(q.col)
    ensures Locate(root + name + [separator] + rest) == Some(Logged(root + name + q.path) + Tail(q))
  {
    var location := root + name + [separator] + rest;
    NotAName(root + name, separator, rest);
    var p := ParsePosition(location).value;
    TailHasNo(p, separator);
    var below := RestOfPath(root + name, separator, rest, p.path, Tail(p));
    q := Position([separator] + below, p.line, p.col);
    hide ParsePosition, Logged;
    ParsePrinted(q);
    TailHasNo(q, separator);
    assert Print(q) == [separator] + rest by {
      Regroup([separator], below, Tail(p));
    }
    Regroup(root + name, [separator], below);
    assert p.path == root + name + q.path;
    LocateParsed(location, p);
  }

  lemma NotAName(before: Text, separator: Unit, rest: Text)
    requires IsSeparator(separator)
    ensures var location := before + [separator] + rest; location != NATIVE && location != ANONYMOUS
  {
    var location := before + [separator] + rest;
    assert location[|before|] == separator;
    assert forall u | u in NATIVE :: !IsSeparator(u);
    assert forall u | u in ANONYMOUS :: !IsSeparator(u);
    assert location[|before|] in location;
  }

  lemma LocateParsed(location: Text, p: Position)
    requires location != NATIVE && location != ANONYMOUS && ParsePosition(location) == Some(p)
    ensures Locate(location) in {None, Some(Logged(p.path) + Tail(p))}
  {
    hide ParsePosition, StripQuery, Allowed, RewriteHome;
    var q := p.(path := Logged(p.path));
    assert Print(q) == Logged(p.path) + Tail(p);
  }

  // ----- where it is hidden

  lemma FindIn(t: Text, u: Unit, x: Text)
    ensures u in t ==> IndexOf(t + x, u) == IndexOf(t, u) < |t|
    ensures u !in t ==> IndexOf(t + x, u) == |t| + IndexOf(x, u)
  {
    hide IndexOf;
    var n := IndexOf(t + x, u);
    if u in t {
      var i :| 0 <= i < |t| && t[i] == u;
      assert (t + x)[i] == u && (t + x)[IndexOf(t, u)] == t[IndexOf(t, u)];
      assert n < |t| ==> (t + x)[n] == t[n];
    } else {
      assert forall i | 0 <= i < |t| :: (t + x)[i] == t[i] && t[i] in t;
      assert forall i | 0 <= i < |x| :: (t + x)[|t| + i] == x[i];
      assert n < |t| + |x| ==> n >= |t| && x[n - |t|] == u;
    }
  }

  /** Behind a query nothing is logged. */
  lemma QueryHides(root: Text, x: Text)
    requires Queried(root)
    ensures Logged(root + x) == Logged(root)
  {
    var t := root + x;
    assert HasQuery(root) && (U('?') in root || U('#') in root);
    hide IndexOf, HasQuery, StripQuery, RewriteHome, Queried;
    Halves(root, x);
    UrlOnward(root, t);
    FindIn(root, U('?'), x);
    FindIn(root, U('#'), x);
    FindHere(root, U('?'));
    FindHere(root, U('#'));
    StripIs(root);
    StripIs(t);
    var q, h := IndexOf(root, U('?')), IndexOf(root, U('#'));
    Cuts(root, x, if q < h then q else h);
  }

  lemma Halves(a: Text, b: Text)
    ensures (a + b)[..|a|] == a && (a + b)[|a|..] == b
  {
  }

  /** A path in pieces, seen from the home directory on. */
  lemma Splice(root: Text, name: Text, below: Text, len: nat)
    requires len <= |root|
    ensures var path := root + name + below;
      path[..len] == root[..len] && path[len..] == root[len..] + name + below
  {
  }

  lemma Behind(x: Text, y: Text, i: nat)
    requires |x| <= i <= |x| + |y|
    ensures (x + y)[i..] == y[i - |x|..]
  {
  }

  /** What rewriting does, by where the first separator is behind the home directory. */
  lemma RewriteIs(path: Text)
    requires HomeOf(path).Some?
    ensures var h := HomeOf(path).value;
      var n := IndexOf(path[h.length..], h.separator);
      if n == 0 || h.length + n == |path| then RewriteHome(path) == path
      else RewriteHome(path) == path[..h.length] + [U('~')] + path[h.length + n..]
  {
  }

  lemma HomeStays(root: Text, x: Text)
    requires HomeOf(root).Some?
    ensures HomeOf(root + x) == HomeOf(root) && !HasQuery(root + x)
  {
    Halves(root, x);
    SameHome(root, root + x);
    HomeIsNoUrl(root + x);
  }

  lemma SegmentHas(name: Text, u: Unit)
    requires IsSegment(name) && IsSeparator(u)
    ensures u !in name
  {
  }

  lemma RewriteAt(path: Text, front: Text, n: nat, tail: Text)
    requires HomeOf(path).Some? && n == IndexOf(path[HomeOf(path).value.length..], HomeOf(path).value.separator)
    requires front == path[..HomeOf(path).value.length]
    requires n > 0 && HomeOf(path).value.length + n < |path| && tail == path[HomeOf(path).value.length + n..]
    ensures RewriteHome(path) == front + [U('~')] + tail
  {
    RewriteIs(path);
  }

  lemma FindOver(over: Text, below: Text, u: Unit)
    requires over != [] && u !in over && u in below
    ensures var n := IndexOf(over + below, u);
      0 < n < |over + below| && (over + below)[n..] == below[IndexOf(below, u)..]
  {
    FindIn(over, u, below);
    FindHere(below, u);
    Behind(over, below, |over| + IndexOf(below, u));
  }

  lemma RewriteOver(path: Text, front: Text, over: Text, below: Text)
    requires HomeOf(path).Some? && path[HomeOf(path).value.length..] == over + below && over != []
    requires front == path[..HomeOf(path).value.length]
    requires HomeOf(path).value.separator !in over && HomeOf(path).value.separator in below
    ensures RewriteHome(path) == front + [U('~')] + below[IndexOf(below, HomeOf(path).value.separator)..]
  {
    var h := HomeOf(path).value;
    FindOver(over, below, h.separator);
    var t := path[h.length..];
    var n := IndexOf(t, h.separator);
    var tail := below[IndexOf(below, h.separator)..];
    assert 0 < n < |t| && t[n..] == tail;
    hide *;
    DropAgain(path, h.length, n);
    RewriteAt(path, front, n, tail);
  }

  lemma DropAgain(t: Text, a: nat, b: nat)
    requires a + b <= |t|
    ensures t[a..][b..] == t[a + b..]
  {
  }

  /** In the place of the profile name only what follows it is logged. */
  lemma HomeHides(root: Text, name: Text, below: Text)
    requires HomeOf(root).Some? && HomeOf(root).value.separator !in root[HomeOf(root).value.length..]
    requires IsSegment(name) && HomeOf(root).value.separator in below
    ensures var h := HomeOf(root).value;
      Logged(root + name + below) == root[..h.length] + [U('~')] + below[IndexOf(below, h.separator)..]
  {
    var h, path := HomeOf(root).value, root + name + below;
    HomeRoot(root);
    HomeStays(root, name + below);
    Regroup(root, name, below);
    SegmentHas(name, h.separator);
    Splice(root, name, below, h.length);
    NotEmpty(name);
    hide HomeOf, HasQuery, RewriteHome, IsSegment, IndexOf;
    RewriteOver(path, root[..h.length], root[h.length..] + name, below);
    assert Logged(path) == RewriteHome(path);
  }

  lemma NotEmpty(name: Text)
    requires IsSegment(name)
    ensures name != []
  {
  }

  lemma FindHere(t: Text, u: Unit)
    ensures u in t <==> IndexOf(t, u) < |t|
  {
    FindIn(t, u, []);
    assert t + [] == t;
  }

  // ----- where it shows

  lemma BeforeQuery(path: Text, prefix: Text, i: nat)
    requires LowerStartsWith(path, prefix) && U('?') !in prefix && U('#') !in prefix
    requires i < |path| && (path[i] == U('?') || path[i] == U('#'))
    ensures LowerStartsWith(path[..i], prefix)
  {
    forall k | 0 <= k < |prefix| ensures path[k] != U('?') && path[k] != U('#') {
      assert prefix[k] in prefix && Lower(path[k]) == prefix[k];
    }
  }

  /** A URL is one by what stands before its query. */
  lemma UrlBeforeQuery(path: Text, i: nat)
    requires HasQuery(path) && i < |path| && (path[i] == U('?') || path[i] == U('#'))
    ensures HasQuery(path[..i])
  {
    assert U('?') !in HTTP && U('#') !in HTTP && U('?') !in HTTPS && U('#') !in HTTPS && U('?') !in FILE
      && U('#') !in FILE;
    hide LowerStartsWith, HTTP, HTTPS, FILE;
    if LowerStartsWith(path, HTTP) {
      BeforeQuery(path, HTTP, i);
    } else if LowerStartsWith(path, HTTPS) {
      BeforeQuery(path, HTTPS, i);
    } else {
      BeforeQuery(path, FILE, i);
    }
  }

  lemma UrlOnward(path: Text, longer: Text)
    requires HasQuery(path) && path <= longer
    ensures HasQuery(longer)
  {
    assert longer == path + longer[|path|..];
  }

  lemma NoQueryIn(root: Text, name: Text, below: Text, u: Unit)
    requires IsSegment(name) && below != [] && IsSeparator(below[0]) && !Queried(root)
    requires HasQuery(root + name + below) && (u == U('?') || u == U('#'))
    ensures u !in root + name + [below[0]]
  {
    var path := root + name + below;
    Regroup(root, name, below);
    if u in root {
      var i :| 0 <= i < |root| && root[i] == u;
      QueryInRoot(root, name + below, i);
    }
  }

  lemma QueryInRoot(root: Text, x: Text, i: nat)
    requires HasQuery(root + x) && i < |root| && (root[i] == U('?') || root[i] == U('#'))
    ensures HasQuery(root)
  {
    var path := root + x;
    UrlBeforeQuery(path, i);
    assert path[..i] == root[..i];
    UrlOnward(path[..i], root);
  }

  lemma StripIs(path: Text)
    requires HasQuery(path)
    ensures var q, h := IndexOf(path, U('?')), IndexOf(path, U('#')); StripQuery(path) == path[..if q < h then q else h]
    ensures HasQuery(StripQuery(path))
  {
    var q, h := IndexOf(path, U('?')), IndexOf(path, U('#'));
    var end := if q < h then q else h;
    if end < |path| {
      UrlBeforeQuery(path, end);
    } else {
      assert path[..end] == path;
    }
  }

  /** The query, if there is one, is behind the name. */
  lemma ShownKept(root: Text, name: Text, below: Text)
    requires IsSegment(name) && below != [] && IsSeparator(below[0]) && !Queried(root)
    requires HasQuery(root + name + below)
    ensures root + name + [below[0]] <= StripQuery(root + name + below)
  {
    var path, shown := root + name + below, root + name + [below[0]];
    assert path == shown + below[1..];
    NoQueryIn(root, name, below, U('?'));
    NoQueryIn(root, name, below, U('#'));
    FindIn(shown, U('?'), below[1..]);
    FindIn(shown, U('#'), below[1..]);
    StripIs(path);
    hide IndexOf, HasQuery, StripQuery, Queried, IsSegment;
    var end := |StripQuery(path)|;
    assert StripQuery(path) == path[..end] && end >= |shown|;
  }

  lemma UrlHasNoHome(path: Text, root: Text)
    requires HasQuery(path) && root <= path
    ensures HomeOf(root).None?
  {
    if HomeOf(root).Some? {
      assert path == root + path[|root|..];
      HomeStays(root, path[|root|..]);
    }
  }

  lemma UrlShows(root: Text, name: Text, below: Text)
    requires IsSegment(name) && below != [] && IsSeparator(below[0]) && !Queried(root)
    requires HasQuery(root + name + below)
    ensures RewriteHome(root) + name + [below[0]] <= Logged(root + name + below)
  {
    var path := root + name + below;
    ShownKept(root, name, below);
    StripIs(path);
    hide StripQuery, IsSegment;
    UrlHasNoHome(path, root);
    UrlHasNoHome(StripQuery(path), StripQuery(path));
    NoHomeKept(root);
    NoHomeKept(StripQuery(path));
  }

  lemma HomeEnds(path: Text)
    requires HomeOf(path).Some?
    ensures IsSeparator(path[HomeOf(path).value.length - 1])
  {
    var n := HomeOf(path).value.length;
    if n == 9 {
      assert path[8] == path[3..][..6][5];
    } else {
      assert path[n - 1] == path[..n][n - 1];
    }
  }

  /** The name stands within the path of a home directory that its own root is too short for. */
  lemma LongHomeShows(root: Text, name: Text, below: Text)
    requires IsSegment(name) && below != [] && IsSeparator(below[0]) && HomeOf(root).None?
    ensures root + name + [below[0]] <= RewriteHome(root + name + below)
  {
    var path, shown := root + name + below, root + name + [below[0]];
    assert path == shown + below[1..];
    if Profile(path) > 0 {
      var n := HomeOf(path).value.length;
      if n <= |root| {
        assert path[..n] == root[..n];
        SameHome(path, root);
      }
      HomeEnds(path);
      assert forall i | |root| <= i < |root| + |name| :: path[i] == name[i - |root|] && path[i] in name;
      hide HomeOf, Profile, IsSegment;
      assert n >= |shown|;
      assert path[..n][..|shown|] == shown;
    }
  }

  /** The profile name ends within the root. */
  lemma ProfileBefore(root: Text, x: Text)
    requires HomeOf(root).Some? && HomeOf(root).value.separator in root[HomeOf(root).value.length..]
    ensures RewriteHome(root + x) == RewriteHome(root) + x
  {
    var path, h := root + x, HomeOf(root).value;
    var len, start := h.length, root[h.length..];
    var n := IndexOf(start, h.separator);
    HomeStays(root, x);
    FindIn(start, h.separator, x);
    Cuts(root, x, len);
    Cuts(root, x, len + n);
    if n > 0 {
      hide HomeOf, HasQuery, RewriteHome, IndexOf;
      RewriteAt(path, root[..len], n, root[len + n..] + x);
      RewriteAt(root, root[..len], n, root[len + n..]);
      Regroup(root[..len] + [U('~')], root[len + n..], x);
    } else {
      RewriteIs(path);
      RewriteIs(root);
    }
  }

  /** The path ends before a profile name does. */
  lemma NoProfile(root: Text, x: Text)
    requires HomeOf(root).Some? && HomeOf(root).value.separator !in root[HomeOf(root).value.length..]
    requires HomeOf(root).value.separator !in x
    ensures RewriteHome(root + x) == RewriteHome(root) + x
  {
    var path, h := root + x, HomeOf(root).value;
    var start := root[h.length..];
    HomeStays(root, x);
    RewriteIs(path);
    RewriteIs(root);
    FindIn(start, h.separator, x);
    FindHere(start, h.separator);
    FindHere(x, h.separator);
    hide HomeOf, HasQuery, RewriteHome, IndexOf;
    Cuts(root, x, h.length);
  }

  lemma Cuts(x: Text, y: Text, i: nat)
    requires i <= |x|
    ensures (x + y)[..i] == x[..i] && (x + y)[i..] == x[i..] + y
  {
  }

  lemma HomeShows(root: Text, name: Text, below: Text)
    requires IsSegment(name) && below != [] && IsSeparator(below[0]) && HomeOf(root).Some?
    requires var h := HomeOf(root).value; h.separator in root[h.length..] || h.separator !in below
    ensures RewriteHome(root) + name + [below[0]] <= RewriteHome(root + name + below)
  {
    var h := HomeOf(root).value;
    HomeRoot(root);
    SegmentHas(name, h.separator);
    if h.separator in root[h.length..] {
      ProfileBefore(root, name + below);
    } else {
      NoProfile(root, name + below);
    }
    hide HomeOf, RewriteHome;
    Regroup(root, name, below);
    Shown(RewriteHome(root), name, below);
  }

  lemma Shown(root: Text, name: Text, below: Text)
    requires below != []
    ensures root + name + [below[0]] <= root + (name + below)
  {
    assert root + (name + below) == root + name + [below[0]] + below[1..];
  }

  /** Before a query, and not in the place of a profile name, the name is logged as it stands. */
  lemma NameShows(root: Text, name: Text, below: Text)
    requires IsSegment(name) && below != [] && IsSeparator(below[0]) && !Queried(root)
    requires match HomeOf(root)
             case None => true
             case Some(h) => h.separator in root[h.length..] || h.separator !in below
    ensures RewriteHome(root) + name + [below[0]] <= Logged(root + name + below)
  {
    hide RewriteHome, IsSegment;
    if HasQuery(root + name + below) {
      UrlShows(root, name, below);
    } else if HomeOf(root).Some? {
      HomeShows(root, name, below);
    } else {
      LongHomeShows(root, name, below);
      assert RewriteHome(root) == root by { NoHomeKept(root); }
    }
  }

  lemma NoHomeKept(path: Text)
    requires HomeOf(path).None?
    ensures RewriteHome(path) == path
  {
  }

  /** Two names, each before a separator, make different texts. */
  lemma NamesDiffer(root: Text, a: Text, b: Text, separator: Unit, t: Text)
    requires IsSegment(a) && IsSegment(b) && IsSeparator(separator)
    requires root + a + [separator] <= t && root + b + [separator] <= t
    ensures a == b
  {
    assert t[|root| + |a|] == separator && t[|root| + |b|] == separator;
    forall i | |root| <= i < |root| + |a| ensures t[i] != separator {
      assert t[i] == a[i - |root|] && a[i - |root|] in a;
    }
    forall i | |root| <= i < |root| + |b| ensures t[i] != separator {
      assert t[i] == b[i - |root|] && b[i - |root|] in b;
    }
    assert a == t[|root|..|root| + |a|] && b == t[|root|..|root| + |b|];
  }

  /**
   * The exact condition: of two different names that stand between one root and one rest, both
   * logged, the log shows no difference if and only if they are behind a query or in the place of a
   * profile name.
   */
  lemma NamesAreHidden(root: Text, a: Text, b: Text, separator: Unit, rest: Text)
    requires IsSegment(a) && IsSegment(b) && a != b && IsSeparator(separator)
    requires Locate(root + a + [separator] + rest).Some? && Locate(root + b + [separator] + rest).Some?
    ensures Locate(root + a + [separator] + rest) == Locate(root + b + [separator] + rest)
      <==> Hidden(root, separator, rest)
  {
    var q := Parsed(root, a, separator, rest);
    var r := Parsed(root, b, separator, rest);
    assert q == r;
    RestHas(q, separator, rest);
    hide Locate, ParsePosition, Logged, IsSegment, Hidden, RestHasAll;
    if Hidden(root, separator, rest) {
      HiddenSame(root, a, b, separator, rest, q);
    } else {
      ShownDifferent(root, a, b, separator, rest, q);
      Halves(Logged(root + a + q.path), Tail(q));
      Halves(Logged(root + b + q.path), Tail(q));
    }
  }

  ghost predicate RestHasAll(q: Position, separator: Unit, rest: Text) {
    forall u | IsSeparator(u) :: u in [separator] + rest <==> u in q.path
  }

  lemma HiddenSame(root: Text, a: Text, b: Text, separator: Unit, rest: Text, q: Position)
    requires IsSegment(a) && IsSegment(b) && RestHasAll(q, separator, rest) && Hidden(root, separator, rest)
    ensures Logged(root + a + q.path) == Logged(root + b + q.path)
  {
    hide Logged, IsSegment, HomeOf, Queried;
    if Queried(root) {
      QueryHides(root, a + q.path);
      QueryHides(root, b + q.path);
      Regroup(root, a, q.path);
      Regroup(root, b, q.path);
    } else {
      HomeRoot(root);
      HomeHides(root, a, q.path);
      HomeHides(root, b, q.path);
    }
  }

  lemma ShownDifferent(root: Text, a: Text, b: Text, separator: Unit, rest: Text, q: Position)
    requires IsSegment(a) && IsSegment(b) && a != b && IsSeparator(separator)
    requires q.path != [] && q.path[0] == separator && RestHasAll(q, separator, rest) && !Hidden(root, separator, rest)
    ensures Logged(root + a + q.path) != Logged(root + b + q.path)
  {
    hide Logged, IsSegment, HomeOf, Queried;
    if HomeOf(root).Some? {
      HomeRoot(root);
    }
    NameShows(root, a, q.path);
    NameShows(root, b, q.path);
    if Logged(root + a + q.path) == Logged(root + b + q.path) {
      NamesDiffer(RewriteHome(root), a, b, separator, Logged(root + a + q.path));
    }
  }

  /** Separators of what follows the name are in its path. */
  lemma RestHas(q: Position, separator: Unit, rest: Text)
    requires [separator] + rest == q.path + Tail(q) && IsNumber(q.line) && IsNumber(q.col)
    ensures RestHasAll(q, separator, rest)
  {
    forall u | IsSeparator(u) ensures u !in Tail(q) {
      TailHasNo(q, u);
    }
  }
}
