/** Which paths are logged, and what of them, in terms of what they are made of. */
module FramePaths {
  import opened Wrappers
  import opened Texts
  import opened FrameLocations

  // ----- letters

  predicate IsSmall(u: Unit) {
    97 <= u <= 122
  }

  /** A small letter may be written as a capital one. */
  predicate EitherCase(u: Unit, small: Unit) {
    u == small || (IsSmall(small) && u == small - 32)
  }

  /** So it may where the code lowers the text first, and a `k` as the Kelvin sign. */
  predicate Lowered(u: Unit, small: Unit) {
    EitherCase(u, small) || (small == 107 && u == 0x212a)
  }

  lemma LowerIs(u: Unit, small: Unit)
    requires !(65 <= small <= 90)
    ensures Lower(u) == small <==> Lowered(u, small) && !(small == 0x212a)
    ensures Fold(u) == small <==> EitherCase(u, small)
  {
  }

  ghost predicate BeginsWith(t: Text, p: Text) {
    |p| <= |t| && forall i | 0 <= i < |p| :: Lowered(t[i], p[i])
  }

  ghost predicate EndsWith(t: Text, e: Text) {
    |e| <= |t| && forall i | 0 <= i < |e| :: EitherCase(t[|t| - |e| + i], e[i])
  }

  predicate NoCapitals(p: Text) {
    forall i | 0 <= i < |p| :: p[i] < 128 && !(65 <= p[i] <= 90)
  }

  lemma BeginsIs(t: Text, p: Text)
    requires NoCapitals(p)
    ensures LowerStartsWith(t, p) <==> BeginsWith(t, p)
  {
    hide Lower, Lowered;
    if |p| <= |t| {
      forall i | 0 <= i < |p| ensures Lower(t[i]) == p[i] <==> Lowered(t[i], p[i]) {
        LowerIs(t[i], p[i]);
      }
    }
  }

  lemma EndsIs(t: Text, e: Text)
    requires NoCapitals(e)
    ensures FoldEndsWith(t, e) <==> EndsWith(t, e)
  {
    hide Fold, EitherCase;
    if |e| <= |t| {
      forall i | 0 <= i < |e|
        ensures t[|t| - |e|..][i] == t[|t| - |e| + i]
        ensures Fold(t[|t| - |e| + i]) == e[i] <==> EitherCase(t[|t| - |e| + i], e[i])
      {
        LowerIs(t[|t| - |e| + i], e[i]);
      }
    }
  }

  // ----- the paths that may be logged

  /** `.js` and `.ts`, as they are, with an `m` or `c` before or an `x` behind. */
  ghost predicate IsScript(path: Text) {
    || EndsWith(path, [46, 106, 115]) || EndsWith(path, [46, 109, 106, 115]) || EndsWith(path, [46, 99, 106, 115])
    || EndsWith(path, [46, 106, 115, 120])
    || EndsWith(path, [46, 116, 115]) || EndsWith(path, [46, 109, 116, 115]) || EndsWith(path, [46, 99, 116, 115])
    || EndsWith(path, [46, 116, 115, 120])
  }

  lemma ExtensionTexts()
    ensures EXTENSIONS == [
      [46, 106, 115], [46, 109, 106, 115], [46, 99, 106, 115], [46, 106, 115, 120],
      [46, 116, 115], [46, 109, 116, 115], [46, 99, 116, 115], [46, 116, 115, 120]]
  {
    assert Ascii(".js") == [46, 106, 115] && Ascii(".mjs") == [46, 109, 106, 115];
    assert Ascii(".cjs") == [46, 99, 106, 115] && Ascii(".jsx") == [46, 106, 115, 120];
    assert Ascii(".ts") == [46, 116, 115] && Ascii(".mts") == [46, 109, 116, 115];
    assert Ascii(".cts") == [46, 99, 116, 115] && Ascii(".tsx") == [46, 116, 115, 120];
  }

  lemma SourceIs(path: Text)
    ensures IsSource(path) <==> IsScript(path)
  {
    ExtensionTexts();
    hide EXTENSIONS, FoldEndsWith, EndsWith;
    forall e | e in EXTENSIONS ensures FoldEndsWith(path, e) <==> EndsWith(path, e) {
      EndsIs(path, e);
    }
    assert forall e :: e in EXTENSIONS <==>
        e == EXTENSIONS[0] || e == EXTENSIONS[1] || e == EXTENSIONS[2] || e == EXTENSIONS[3]
        || e == EXTENSIONS[4] || e == EXTENSIONS[5] || e == EXTENSIONS[6] || e == EXTENSIONS[7];
  }

  const NODE_UNITS: Text := [110, 111, 100, 101, 58]
  const FILE_UNITS: Text := [102, 105, 108, 101, 58, 47, 47]
  const HTTP_UNITS: Text := [104, 116, 116, 112, 58, 47, 47]
  const HTTPS_UNITS: Text := [104, 116, 116, 112, 115, 58, 47, 47]
  const WEBPACK_UNITS: Text :=
    [119, 101, 98, 112, 97, 99, 107, 45, 105, 110, 116, 101, 114, 110, 97, 108, 58, 47, 47, 47]

  lemma PrefixTexts()
    ensures NODE == NODE_UNITS && FILE == FILE_UNITS && HTTP == HTTP_UNITS && HTTPS == HTTPS_UNITS
    ensures WEBPACK == WEBPACK_UNITS
  {
  }

  /** A module of Node's own: small letters, underscores and slashes. */
  predicate IsNodeModule(path: Text) {
    && NODE_UNITS < path
    && forall i | 5 <= i < |path| :: IsSmall(path[i]) || path[i] == 95 || path[i] == 47
  }

  /** One of the four kinds of URL. */
  ghost predicate IsUrl(path: Text) {
    BeginsWith(path, FILE_UNITS) || BeginsWith(path, WEBPACK_UNITS)
    || BeginsWith(path, HTTP_UNITS) || BeginsWith(path, HTTPS_UNITS)
  }

  /** No `://` anywhere. */
  predicate NoScheme(path: Text) {
    forall i | 0 <= i < |path| :: !IsSchemeAt(path, i)
  }

  predicate IsSchemeAt(path: Text, i: nat) {
    i + 2 < |path| && path[i] == 58 && path[i + 1] == 47 && path[i + 2] == 47
  }

  /** It begins with a slash, or with a letter of either case, a colon and a backslash. */
  predicate IsAbsolute(path: Text) {
    || (path != [] && path[0] == 47)
    || (|path| >= 3 && (IsSmall(path[0]) || 65 <= path[0] <= 90) && path[1] == 58 && path[2] == 92)
  }

  lemma SchemeIs(path: Text)
    ensures HasScheme(path) <==> !NoScheme(path)
  {
    assert forall i | 0 <= i < |path| :: SchemeAt(path, i) <==> IsSchemeAt(path, i);
  }

  lemma BuiltinIs(path: Text)
    ensures IsBuiltin(path) <==> IsNodeModule(path)
    ensures IsBuiltin(path) ==> BeginsWith(path, NODE_UNITS)
  {
    PrefixTexts();
    hide NODE;
    if NODE_UNITS < path {
      assert forall i | 0 <= i < 5 :: path[i] == path[..5][i] == NODE_UNITS[i];
      if IsBuiltin(path) {
        forall i | 5 <= i < |path| ensures IsSmall(path[i]) || path[i] == 95 || path[i] == 47 {
          assert path[i] == path[5..][i - 5] && path[5..][i - 5] in path[5..];
        }
      }
      if IsNodeModule(path) {
        forall u | u in path[5..] ensures IsSmall(u) || u == 95 || u == 47 {
          var k :| 0 <= k < |path[5..]| && path[5..][k] == u;
          assert path[k + 5] == u;
        }
      }
    }
  }

  lemma PrefixesAre(path: Text)
    ensures LowerStartsWith(path, NODE) <==> BeginsWith(path, NODE_UNITS)
    ensures LowerStartsWith(path, FILE) <==> BeginsWith(path, FILE_UNITS)
    ensures LowerStartsWith(path, WEBPACK) <==> BeginsWith(path, WEBPACK_UNITS)
    ensures LowerStartsWith(path, HTTP) <==> BeginsWith(path, HTTP_UNITS)
    ensures LowerStartsWith(path, HTTPS) <==> BeginsWith(path, HTTPS_UNITS)
  {
    PrefixTexts();
    hide NODE, FILE, WEBPACK, HTTP, HTTPS, LowerStartsWith, BeginsWith;
    BeginsIs(path, NODE_UNITS);
    BeginsIs(path, FILE_UNITS);
    BeginsIs(path, WEBPACK_UNITS);
    BeginsIs(path, HTTP_UNITS);
    BeginsIs(path, HTTPS_UNITS);
  }

  /** What begins like a module of Node's is neither a URL nor absolute. */
  lemma NodeIsApart(path: Text)
    requires BeginsWith(path, NODE_UNITS)
    ensures !IsUrl(path) && !IsAbsolute(path)
  {
    assert Lowered(path[0], NODE_UNITS[0]) && Lowered(path[1], NODE_UNITS[1]);
  }

  lemma AbsoluteIs(path: Text)
    ensures IsAbsolute(path) <==> (path != [] && path[0] == U('/')) || OnDrive(path)
  {
  }

  /**
   * A path may be logged if and only if it has no white space and is a module of Node's own, or a
   * script that is at a URL of one of the four kinds or at an absolute path without a scheme.
   */
  lemma AllowedExactly(path: Text)
    ensures Allowed(path) <==>
      && (forall u | u in path :: !IsSpace(u))
      && (IsNodeModule(path) || (IsScript(path) && (IsUrl(path) || (NoScheme(path) && IsAbsolute(path)))))
  {
    PrefixesAre(path);
    SourceIs(path);
    SchemeIs(path);
    BuiltinIs(path);
    AbsoluteIs(path);
    hide LowerStartsWith, BeginsWith, IsSource, IsScript, HasScheme, NoScheme, IsBuiltin, IsNodeModule, IsAbsolute,
      OnDrive, IsSpace;
    if BeginsWith(path, NODE_UNITS) {
      NodeIsApart(path);
    }
  }

  // ----- what of a path is logged

  /** The rest of a URL behind `?` or `#`, whichever comes first, is left out; nothing else is. */
  lemma QueryExactly(path: Text)
    ensures var r := StripQuery(path);
      if BeginsWith(path, HTTP_UNITS) || BeginsWith(path, HTTPS_UNITS) || BeginsWith(path, FILE_UNITS) then
        && r <= path && 63 !in r && 35 !in r
        && (r == path || path[|r|] == 63 || path[|r|] == 35)
      else r == path
  {
    PrefixesAre(path);
    var q, h := IndexOf(path, U('?')), IndexOf(path, U('#'));
    hide LowerStartsWith, BeginsWith, IndexOf;
    assert U('?') == 63 && U('#') == 35;
    var n := if q < h then q else h;
    assert forall i | 0 <= i < n :: path[..n][i] == path[i];
    assert path[..|path|] == path;
  }

  const HOME_UNITS: Text := [47, 104, 111, 109, 101, 47]
  const MAC_UNITS: Text := [47, 85, 115, 101, 114, 115, 47]
  const DRIVE_UNITS: Text := [85, 115, 101, 114, 115, 92]

  /** `/home/` and `/Users/`, and `Users\` behind the letter of a drive. */
  predicate IsHome(root: Text, separator: Unit) {
    || (root == HOME_UNITS && separator == 47)
    || (root == MAC_UNITS && separator == 47)
    || (|root| == 9 && (IsSmall(root[0]) || 65 <= root[0] <= 90) && root[1] == 58 && root[2] == 92
        && root[3..] == DRIVE_UNITS && separator == 92)
  }

  lemma HomeTexts()
    ensures Ascii("/home/") == HOME_UNITS && Ascii("/Users/") == MAC_UNITS && Ascii("Users\\") == DRIVE_UNITS
  {
  }

  lemma HomeIs(path: Text, n: nat, separator: Unit)
    ensures HomeOf(path) == Some(Home(n, separator)) <==> n <= |path| && IsHome(path[..n], separator)
  {
    HomeTexts();
    AbsoluteIs(path);
    hide Ascii;
    assert |path| >= 6 ==> path[..6] == [path[0], path[1], path[2], path[3], path[4], path[5]];
    assert |path| >= 7 ==> path[..7] == [path[0], path[1], path[2], path[3], path[4], path[5], path[6]];
    if |path| >= 9 {
      assert path[..9][3..] == path[3..][..6];
      assert path[..9][0] == path[0] && path[..9][1] == path[1] && path[..9][2] == path[2];
    }
    DriveIs(path);
    hide OnDrive;
  }

  lemma DriveIs(path: Text)
    ensures OnDrive(path) <==>
      |path| >= 3 && (IsSmall(path[0]) || 65 <= path[0] <= 90) && path[1] == 58 && path[2] == 92
  {
  }

  /** The home directory, the name of the profile, and what is below it. */
  ghost predicate IsProfile(path: Text, root: Text, name: Text, separator: Unit, rest: Text) {
    IsHome(root, separator) && name != [] && separator !in name && path == root + name + [separator] + rest
  }

  /** The profile name becomes a tilde where there is one, and nothing else is changed. */
  lemma HomeExactly(path: Text)
    ensures forall root, name, separator: Unit, rest | IsProfile(path, root, name, separator, rest) ::
      RewriteHome(path) == root + [126] + [separator] + rest
    ensures (forall root, name, separator: Unit, rest :: !IsProfile(path, root, name, separator, rest)) ==>
      RewriteHome(path) == path
  {
    forall root, name, separator: Unit, rest | IsProfile(path, root, name, separator, rest)
      ensures RewriteHome(path) == root + [126] + [separator] + rest
    {
      ProfileRewritten(path, root, name, separator, rest);
    }
    if Profile(path) > 0 {
      var root, name, rest := Divided(path);
      var h := HomeOf(path).value;
      HomeIs(path, h.length, h.separator);
      NameHasNoSeparator(path, root, name, rest);
      assert IsProfile(path, root, name, h.separator, rest);
    }
  }

  lemma NameHasNoSeparator(path: Text, root: Text, name: Text, rest: Text)
    requires Profile(path) > 0 && root == path[..HomeOf(path).value.length]
    requires path == root + name + [HomeOf(path).value.separator] + rest && name != []
    requires RewriteHome(path) == root + [126] + [HomeOf(path).value.separator] + rest
    ensures HomeOf(path).value.separator !in name
  {
    hide HomeOf;
    var h, n := HomeOf(path).value, Profile(path);
    assert |RewriteHome(path)| == |path| - n + 1;
    assert |name| == n;
    forall i | 0 <= i < n ensures name[i] != h.separator {
      assert name[i] == path[h.length..][i];
    }
  }

  lemma ProfileRewritten(path: Text, root: Text, name: Text, separator: Unit, rest: Text)
    requires IsProfile(path, root, name, separator, rest)
    ensures RewriteHome(path) == root + [126] + [separator] + rest
  {
    hide IsHome, IsProfile, HomeOf, Profile;
    ProfileLength(path, root, name, separator, rest);
    assert path[..|root|] == root && path[|root| + |name|..] == [separator] + rest by { hide *; }
    assert root + [U('~')] + ([separator] + rest) == root + [126] + [separator] + rest;
  }

  lemma ProfileLength(path: Text, root: Text, name: Text, separator: Unit, rest: Text)
    requires IsProfile(path, root, name, separator, rest)
    ensures path == root + name + [separator] + rest && name != []
    ensures HomeOf(path) == Some(Home(|root|, separator)) && Profile(path) == |name|
  {
    assert path[..|root|] == root;
    HomeIs(path, |root|, separator);
    hide HomeOf, IsHome;
    var tail := name + [separator] + rest;
    assert path == root + tail && path[|root|..] == tail;
    NameEnds(name, separator, rest);
    hide IndexOf;
  }

  lemma NameEnds(name: Text, separator: Unit, rest: Text)
    requires separator !in name
    ensures IndexOf(name + [separator] + rest, separator) == |name|
  {
    var tail := name + [separator] + rest;
    assert tail[|name|] == separator && forall i | 0 <= i < |name| :: tail[i] == name[i];
    hide IndexOf;
  }

  /** A location is path, line and column between colons, both numbers being decimal digits. */
  lemma PositionExactly(location: Text, p: Position)
    ensures ParsePosition(location) == Some(p) <==>
      && location == p.path + [58] + (p.line + [58] + p.col)
      && p.path != [] && p.line != [] && p.col != []
      && (forall u | u in p.line :: 48 <= u <= 57) && forall u | u in p.col :: 48 <= u <= 57
  {
    if p.path != [] && IsNumber(p.line) && IsNumber(p.col) {
      ParsePrinted(p);
    }
    NumberIs(p.line);
    NumberIs(p.col);
    hide ParsePosition, IsNumber;
  }

  lemma NumberIs(t: Text)
    ensures IsNumber(t) <==> t != [] && forall u | u in t :: 48 <= u <= 57
  {
  }

  /**
   * What is logged of a location: `native` and `<anonymous>` as they are; of path, line and column the
   * path without query and profile name, line and column untouched, if the path may be logged and has
   * no `@`; and of anything else nothing.
   */
  lemma LocatedExactly(location: Text)
    ensures location == Ascii("native") || location == Ascii("<anonymous>") ==> Locate(location) == Some(location)
    ensures location != Ascii("native") && location != Ascii("<anonymous>") ==>
      match ParsePosition(location)
      case None => Locate(location) == None
      case Some(p) =>
        var path := StripQuery(p.path);
        if 64 in path || !Allowed(path) then Locate(location) == None
        else Locate(location) == Some(RewriteHome(path) + [58] + (p.line + [58] + p.col))
  {
    hide ParsePosition, StripQuery, Allowed, RewriteHome, Ascii;
  }
}
