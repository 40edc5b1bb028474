/** `frameLocation`: what is logged of one line of a stack. */
module FrameLocations {
  import opened Wrappers
  import opened Texts

  const AT: Text := Ascii("    at ")
  const ASYNC: Text := Ascii("async ")
  const NATIVE: Text := Ascii("native")
  const ANONYMOUS: Text := Ascii("<anonymous>")
  const NODE: Text := Ascii("node:")
  const FILE: Text := Ascii("file://")
  const HTTP: Text := Ascii("http://")
  const HTTPS: Text := Ascii("https://")
  const WEBPACK: Text := Ascii("webpack-internal:///")

  /** Case folding of a regular expression without the `u` flag: among ASCII letters. */
  function Fold(u: Unit): Unit {
    if U('A') <= u <= U('Z') then u + 32 else u
  }

  /** `toLowerCase`, as far as a comparison with ASCII text can see it: the Kelvin sign becomes `k`. */
  function Lower(u: Unit): Unit {
    if u == 0x212a then U('k') else Fold(u)
  }

  predicate LowerStartsWith(t: Text, p: Text) {
    |p| <= |t| && forall i | 0 <= i < |p| :: Lower(t[i]) == p[i]
  }

  predicate FoldEndsWith(t: Text, e: Text) {
    |e| <= |t| && var end := t[|t| - |e|..]; forall i | 0 <= i < |e| :: Fold(end[i]) == e[i]
  }

  /** `lastIndexOf(' (')`. */
  function FindWrap(t: Text): (r: int)
    ensures -1 <= r && (r >= 0 ==> r + 2 <= |t| && t[r] == U(' ') && t[r + 1] == U('('))
    ensures forall i | r < i < |t| - 1 :: !(t[i] == U(' ') && t[i + 1] == U('('))
  {
    if |t| < 2 then -1
    else if t[|t| - 2] == U(' ') && t[|t| - 1] == U('(') then |t| - 2
    else FindWrap(t[..|t| - 1])
  }

  // ----- one line

  /** What stands in the last parenthesis, if the text ends with one; otherwise all of it. */
  function Unwrap(rest: Text): Text {
    var wrap := FindWrap(rest);
    if wrap >= 0 && rest[|rest| - 1] == U(')') then rest[wrap + 2..|rest| - 1] else rest
  }

  /** What a frame line says after `at`. */
  function LocationPart(line: Text): Option<Text> {
    if !StartsWith(line, AT) then None
    else
      var after := line[|AT|..];
      Some(Unwrap(if StartsWith(after, ASYNC) then after[|ASYNC|..] else after))
  }

  datatype Position = Position(path: Text, line: Text, col: Text)

  /** `/^\d+$/`. */
  predicate IsNumber(t: Text) {
    t != [] && AllDigits(t)
  }

  function Print(p: Position): Text {
    p.path + [U(':')] + (p.line + [U(':')] + p.col)
  }

  /** `parseFramePathLineCol`: around the last two colons. */
  function ParsePosition(location: Text): (r: Option<Position>)
    ensures r.Some? ==>
      location == Print(r.value) && r.value.path != [] && IsNumber(r.value.line) && IsNumber(r.value.col)
  {
    var c := LastIndexOf(location, U(':'));
    if c <= 0 then None
    else
      var before := location[..c];
      var l := LastIndexOf(before, U(':'));
      if l <= 0 then None
      else
        var p := Position(before[..l], before[l + 1..], location[c + 1..]);
        if IsNumber(p.line) && IsNumber(p.col) then
          assert location == before + [U(':')] + p.col && before == p.path + [U(':')] + p.line;
          Some(p)
        else None
  }

  predicate HasQuery(path: Text) {
    LowerStartsWith(path, HTTP) || LowerStartsWith(path, HTTPS) || LowerStartsWith(path, FILE)
  }

  /** `stripUrlQuery`. */
  function StripQuery(path: Text): Text {
    if !HasQuery(path) then path
    else
      var q, h := IndexOf(path, U('?')), IndexOf(path, U('#'));
      path[..if q < h then q else h]
  }

  predicate SchemeAt(t: Text, i: nat) {
    i + 2 < |t| && t[i] == U(':') && t[i + 1] == U('/') && t[i + 2] == U('/')
  }

  /** `includes('://')`. */
  predicate HasScheme(t: Text) {
    exists i | 0 <= i < |t| :: SchemeAt(t, i)
  }

  const EXTENSIONS: seq<Text> := [
    Ascii(".js"), Ascii(".mjs"), Ascii(".cjs"), Ascii(".jsx"), Ascii(".ts"), Ascii(".mts"), Ascii(".cts"),
    Ascii(".tsx")]

  predicate IsSource(path: Text) {
    exists e | e in EXTENSIONS :: FoldEndsWith(path, e)
  }

  /** `/^[A-Za-z]:\\/`. */
  predicate OnDrive(path: Text) {
    |path| >= 3 && U('a') <= Fold(path[0]) <= U('z') && path[1] == U(':') && path[2] == U('\\')
  }

  /** `NODE_BUILTIN_PATH`. */
  predicate IsBuiltin(path: Text) {
    && StartsWith(path, NODE) && |path| > |NODE|
    && forall u | u in path[|NODE|..] :: U('a') <= u <= U('z') || u == U('_') || u == U('/')
  }

  /** `allowedFramePath`, of a path without an `@`. */
  predicate Allowed(path: Text) {
    if exists u | u in path :: IsSpace(u) then false
    else if LowerStartsWith(path, NODE) then IsBuiltin(path)
    else if LowerStartsWith(path, FILE) then IsSource(path)
    else if LowerStartsWith(path, WEBPACK) then IsSource(path)
    else if LowerStartsWith(path, HTTP) || LowerStartsWith(path, HTTPS) then IsSource(path)
    else if HasScheme(path) then false
    else if path != [] && path[0] == U('/') then IsSource(path)
    else OnDrive(path) && IsSource(path)
  }

  datatype Home = Home(length: nat, separator: Unit)

  /** Where the profile name starts in a path below the home directories, and what ends it. */
  function HomeOf(path: Text): (r: Option<Home>)
    ensures r.Some? ==> 3 <= r.value.length <= |path|
  {
    if StartsWith(path, Ascii("/home/")) then Some(Home(6, U('/')))
    else if StartsWith(path, Ascii("/Users/")) then Some(Home(7, U('/')))
    else if OnDrive(path) && StartsWith(path[3..], Ascii("Users\\")) then Some(Home(9, U('\\')))
    else None
  }

  /** How long the profile name is, if there is one and something below it. */
  function Profile(path: Text): (r: nat)
    ensures r > 0 ==> HomeOf(path).Some? && HomeOf(path).value.length + r < |path|
  {
    match HomeOf(path)
    case None => 0
    case Some(h) =>
      var n := IndexOf(path[h.length..], h.separator);
      if h.length + n < |path| then n else 0
  }

  /** `rewriteHomeInPath`: the profile name becomes a tilde. */
  function RewriteHome(path: Text): Text {
    var n := Profile(path);
    if n == 0 then path
    else
      var start := HomeOf(path).value.length;
      path[..start] + [U('~')] + path[start + n..]
  }

  /**
   * `frameLocation` behind the unwrapping of the line. User information in a URL ends at an `@`, so
   * that test is in this one.
   */
  function Locate(location: Text): Option<Text> {
    if location == NATIVE || location == ANONYMOUS then Some(location)
    else
      match ParsePosition(location)
      case None => None
      case Some(p) =>
        var path := StripQuery(p.path);
        if U('@') in path || !Allowed(path) then None
        else Some(Print(p.(path := RewriteHome(path))))
  }

  function FrameLocation(line: Text): Option<Text> {
    match LocationPart(line)
    case None => None
    case Some(location) => Locate(location)
  }

  // ----- what a logged location looks like

  /** A path that may be logged as it is. */
  predicate Clean(path: Text) {
    && U('@') !in path
    && Allowed(path)
    && (HasQuery(path) ==> U('?') !in path && U('#') !in path)
    && (Profile(path) == 0 || (Profile(path) == 1 && path[HomeOf(path).value.length] == U('~')))
  }

  ghost predicate CleanLocation(location: Text) {
    || location == NATIVE || location == ANONYMOUS
    || exists p: Position :: location == Print(p) && IsNumber(p.line) && IsNumber(p.col) && Clean(p.path)
  }

  lemma Extensions(e: Text)
    requires e in EXTENSIONS
    ensures U('/') !in e && U('\\') !in e && e != []
  {
  }

  lemma Suffix(s: Text, e: Text, i: nat)
    requires FoldEndsWith(s, e) && i < |s| && Fold(s[i]) !in e
    ensures |e| < |s| - i
  {
    forall k | |s| - |e| <= k < |s| ensures Fold(s[k]) in e {
      assert s[k] == s[|s| - |e|..][k - (|s| - |e|)];
    }
  }

  lemma SuffixOfTail(x: Text, tail: Text, e: Text)
    requires tail != [] && Fold(tail[0]) !in e
    ensures FoldEndsWith(x + tail, e) <==> FoldEndsWith(tail, e)
  {
    var s := x + tail;
    assert s[|x|] == tail[0];
    if FoldEndsWith(s, e) {
      Suffix(s, e, |x|);
    }
    assert |e| <= |tail| ==> s[|s| - |e|..] == tail[|tail| - |e|..];
  }

  /** A source path keeps its extension when something before a separator is replaced. */
  lemma SourceKept(x: Text, y: Text, separator: Unit, rest: Text)
    requires separator == U('/') || separator == U('\\')
    requires IsSource(x + [separator] + rest)
    ensures IsSource(y + [separator] + rest)
  {
    hide FoldEndsWith;
    var tail := [separator] + rest;
    assert x + [separator] + rest == x + tail && y + [separator] + rest == y + tail;
    var e :| e in EXTENSIONS && FoldEndsWith(x + tail, e);
    Extensions(e);
    SuffixOfTail(x, tail, e);
    SuffixOfTail(y, tail, e);
  }

  /** Replacing what stands before a separator can only make a scheme of a path that has one already. */
  lemma SchemeKept(x: Text, y: Text, separator: Unit, rest: Text)
    requires separator == U('/') || separator == U('\\')
    requires HasScheme(y + [separator] + rest)
    requires forall i | 0 <= i < |y| :: y[i] == U(':') ==> i + 1 < |y| && y[i + 1] != U('/')
    ensures HasScheme(x + [separator] + rest)
  {
    var s, t := x + [separator] + rest, y + [separator] + rest;
    forall i | 0 <= i < |y| ensures !SchemeAt(t, i) {
      assert t[i] == y[i] && (i + 1 < |y| ==> t[i + 1] == y[i + 1]);
    }
    var i :| 0 <= i < |t| && SchemeAt(t, i);
    var k := i - |y| + |x|;
    assert t[i] == s[k] && t[i + 1] == s[k + 1] && t[i + 2] == s[k + 2];
    assert SchemeAt(s, k);
  }

  lemma Cut(path: Text, a: nat, n: nat)
    requires a + n < |path|
    ensures path == path[..a] + path[a..][..n] + [path[a + n]] + path[a..][n + 1..]
    ensures path[a + n..] == [path[a + n]] + path[a..][n + 1..]
  {
    assert path[a..][n + 1..] == path[a + n + 1..] && path[a..][..n] == path[a..a + n];
  }

  /** The parts of a path with a profile name in it. */
  lemma Divided(path: Text) returns (root: Text, name: Text, rest: Text)
    requires Profile(path) > 0
    ensures var h := HomeOf(path).value;
      && root == path[..h.length] && name != []
      && path == root + name + [h.separator] + rest
      && RewriteHome(path) == root + [U('~')] + [h.separator] + rest
  {
    hide HomeOf;
    var h, n := HomeOf(path).value, Profile(path);
    var tail := path[h.length..];
    root, name, rest := path[..h.length], tail[..n], tail[n + 1..];
    assert path[h.length + n] == tail[n] == h.separator;
    Cut(path, h.length, n);
    var keep := root + [U('~')];
    assert keep + path[h.length + n..] == keep + [h.separator] + rest;
  }

  /** Below one root all paths are below the same home directory. */
  lemma SameHome(path: Text, other: Text)
    requires HomeOf(path).Some?
    requires HomeOf(path).value.length <= |other|
    requires other[..HomeOf(path).value.length] == path[..HomeOf(path).value.length]
    ensures HomeOf(other) == HomeOf(path)
  {
    var n := HomeOf(path).value.length;
    assert forall i | 0 <= i < n :: other[i] == other[..n][i] && path[i] == path[..n][i];
    assert other[..6] == other[..n][..6] && path[..6] == path[..n][..6];
    assert n >= 7 ==> other[..7] == other[..n][..7] && path[..7] == path[..n][..7];
    assert n == 9 ==> other[3..][..6] == other[..n][3..9] && path[3..][..6] == path[..n][3..9];
  }

  lemma NoUrl(path: Text)
    requires |path| >= 2 && (path[0] == U('/') || path[1] == U(':'))
    ensures !HasQuery(path) && !LowerStartsWith(path, NODE) && !LowerStartsWith(path, WEBPACK)
  {
    assert NODE[0] == U('n') && NODE[1] == U('o') && WEBPACK[0] == U('w') && WEBPACK[1] == U('e');
    assert FILE[0] == U('f') && FILE[1] == U('i') && HTTP[0] == U('h') && HTTP[1] == U('t');
    assert HTTPS[0] == U('h') && HTTPS[1] == U('t');
  }

  lemma HomeRoot(path: Text)
    requires HomeOf(path).Some?
    ensures path[0] == U('/') || OnDrive(path)
    ensures forall i | 0 <= i < HomeOf(path).value.length :: path[i] == U(':') ==> i == 1 && OnDrive(path)
    ensures HomeOf(path).value.separator == U('/') || HomeOf(path).value.separator == U('\\')
  {
    var n := HomeOf(path).value.length;
    if n == 9 {
      assert forall i | 3 <= i < 9 :: path[i] == path[3..][..6][i - 3];
    } else {
      assert forall i | 0 <= i < n :: path[i] == path[..n][i];
    }
  }

  /** A path with a profile name is allowed for its extension, so another name may stand there. */
  lemma AllowedKept(root: Text, name: Text, separator: Unit, rest: Text)
    requires separator == U('/') || separator == U('\\')
    requires |root| >= 3 && (root[0] == U('/') || OnDrive(root))
    requires forall i | 0 <= i < |root| :: root[i] == U(':') ==> i == 1 && root[2] == U('\\')
    requires Allowed(root + name + [separator] + rest)
    ensures Allowed(root + [U('~')] + [separator] + rest)
  {
    var path, r := root + name + [separator] + rest, root + [U('~')] + [separator] + rest;
    var y := root + [U('~')];
    assert forall i | 0 <= i < 3 :: path[i] == root[i] && r[i] == root[i];
    NoUrl(path);
    NoUrl(r);
    hide HasQuery, IsSource, HasScheme;
    forall u | u in r ensures u in path || u == U('~') {}
    SourceKept(root + name, y, separator, rest);
    if HasScheme(r) {
      assert forall i | 0 <= i < |y| :: y[i] == if i < |root| then root[i] else U('~');
      SchemeKept(root + name, y, separator, rest);
    }
  }

  /** Allowed paths stay allowed, and come out clean, when the profile name goes. */
  lemma {:induction false} RewrittenIsClean(path: Text)
    requires U('@') !in path && Allowed(path) && (HasQuery(path) ==> U('?') !in path && U('#') !in path)
    ensures Clean(RewriteHome(path))
  {
    if Profile(path) > 0 {
      var h, r := HomeOf(path).value, RewriteHome(path);
      var root, name, rest := Divided(path);
      HomeRoot(path);
      RewrittenHome(path, root, rest);
      hide HomeOf, Profile, RewriteHome, HasQuery, Allowed;
      assert forall i | 0 <= i < |root| :: root[i] == path[i];
      assert forall i | 0 <= i < |root| :: root[i] == r[i];
      AllowedKept(root, name, h.separator, rest);
      NoUrl(r);
      forall u | u in r ensures u in path || u == U('~') {}
    }
  }

  lemma RewrittenHome(path: Text, root: Text, rest: Text)
    requires Profile(path) > 0 && root == path[..HomeOf(path).value.length]
    requires RewriteHome(path) == root + [U('~')] + [HomeOf(path).value.separator] + rest
    ensures var r := RewriteHome(path);
      HomeOf(r) == HomeOf(path) && Profile(r) == 1 && r[HomeOf(r).value.length] == U('~')
  {
    var h, r := HomeOf(path).value, RewriteHome(path);
    SameHome(path, r);
    assert r[h.length..] == [U('~')] + [h.separator] + rest;
    assert r[h.length..][0] == U('~') && r[h.length..][1] == h.separator;
  }

  // ----- a logged location reads back as itself

  lemma {:induction false} LastAt(x: Text, u: Unit, y: Text)
    requires u !in y
    ensures LastIndexOf(x + [u] + y, u) == |x|
  {
    hide LastIndexOf;
    var t := x + [u] + y;
    assert t[|x|] == u && t[|x| + 1..] == y;
    forall i | |x| < i < |t| ensures t[i] != u {
      assert t[i] == t[|x| + 1..][i - |x| - 1];
    }
  }

  lemma ParsePrinted(p: Position)
    requires p.path != [] && IsNumber(p.line) && IsNumber(p.col)
    ensures ParsePosition(Print(p)) == Some(p)
  {
    var colon := U(':');
    var before := p.path + [colon] + p.line;
    assert Print(p) == before + [colon] + p.col;
    LastAt(before, colon, p.col);
    LastAt(p.path, colon, p.line);
    assert Print(p)[..|before|] == before && Print(p)[|before| + 1..] == p.col;
    assert before[..|p.path|] == p.path && before[|p.path| + 1..] == p.line;
  }

  lemma {:induction false} CleanKept(path: Text)
    requires Clean(path)
    ensures path != [] && StripQuery(path) == path && RewriteHome(path) == path
  {
    hide HasQuery, HomeOf, Allowed;
    assert path != [] by { AllowedNonEmpty(path); }
    var n := Profile(path);
    if n == 1 {
      var start := HomeOf(path).value.length;
      assert path == path[..start] + [path[start]] + path[start + 1..];
    }
  }

  lemma AllowedNonEmpty(path: Text)
    requires Allowed(path)
    ensures path != [] && forall u | u in path :: !IsSpace(u)
  {
  }

  lemma NamesHaveNoSpace(location: Text)
    requires location == NATIVE || location == ANONYMOUS
    ensures forall u | u in location :: !IsSpace(u)
  {
  }

  lemma PrintHasNoSpace(p: Position)
    requires IsNumber(p.line) && IsNumber(p.col) && forall u | u in p.path :: !IsSpace(u)
    ensures forall u | u in Print(p) :: !IsSpace(u)
  {
    assert forall u | IsDigit(u) || u == U(':') :: !IsSpace(u);
    hide IsSpace;
    forall u | u in Print(p) ensures !IsSpace(u) {
      assert u in p.path || u == U(':') || u in p.line || u in p.col;
    }
  }

  lemma {:induction false} CleanIsLocated(location: Text)
    requires CleanLocation(location)
    ensures Locate(location) == Some(location)
    ensures forall u | u in location :: !IsSpace(u)
  {
    hide Clean, Allowed, StripQuery, RewriteHome, ParsePosition, IsSpace, Print, IsNumber;
    if location == NATIVE || location == ANONYMOUS {
      NamesHaveNoSpace(location);
    } else {
      var p: Position :| location == Print(p) && IsNumber(p.line) && IsNumber(p.col) && Clean(p.path);
      CleanKept(p.path);
      ParsePrinted(p);
      CleanParts(p.path);
      AllowedNonEmpty(p.path);
      PrintHasNoSpace(p);
      assert p.(path := p.path) == p;
    }
  }

  lemma CleanParts(path: Text)
    requires Clean(path)
    ensures Allowed(path) && U('@') !in path
  {
  }

  lemma {:induction false} LocatedIsClean(location: Text)
    requires Locate(location).Some?
    ensures CleanLocation(Locate(location).value)
  {
    if location != NATIVE && location != ANONYMOUS {
      var p := ParsePosition(location).value;
      var path := StripQuery(p.path);
      StrippedHasNoQuery(p.path);
      hide HasQuery, Allowed, Clean, StripQuery, ParsePosition, RewriteHome, IsNumber;
      RewrittenIsClean(path);
      var q := p.(path := RewriteHome(path));
      assert Locate(location) == Some(Print(q));
    }
  }

  lemma StrippedHasNoQuery(path: Text)
    ensures var r := StripQuery(path); HasQuery(r) ==> U('?') !in r && U('#') !in r
  {
    if HasQuery(path) {
      var r := StripQuery(path);
      assert forall i | 0 <= i < |r| :: r[i] == path[i];
    }
  }

  lemma PrefixUnits(t: Text, p: Text)
    requires StartsWith(t, p)
    ensures forall u | u in p :: u in t
  {
    assert t == p + t[|p|..];
  }

  lemma UnwrapPlain(location: Text)
    requires forall u | u in location :: !IsSpace(u)
    ensures LocationPart(AT + location) == Some(location)
  {
    var line := AT + location;
    assert line[..|AT|] == AT && line[|AT|..] == location;
    assert ASYNC[5] == U(' ') && ASYNC[5] in ASYNC;
    assert U(' ') !in location;
    hide FindWrap, IsSpace;
    if StartsWith(location, ASYNC) {
      PrefixUnits(location, ASYNC);
    }
    assert forall i | 0 <= i < |location| :: location[i] in location;
  }

  /** The locations that are logged are exactly the clean ones, and each, as a frame, gives itself again. */
  lemma LoggedLocations(location: Text)
    ensures (exists line :: FrameLocation(line) == Some(location)) <==> CleanLocation(location)
    ensures CleanLocation(location) <==> FrameLocation(AT + location) == Some(location)
  {
    hide Locate, LocationPart, CleanLocation;
    if CleanLocation(location) {
      CleanIsLocated(location);
      UnwrapPlain(location);
      assert FrameLocation(AT + location) == Some(location);
    }
    forall line | FrameLocation(line) == Some(location) ensures CleanLocation(location) {
      LocatedIsClean(LocationPart(line).value);
    }
  }
}
