/**
 * The access gate: path sanitizing, allowed prefixes, and what a listing or a
 * delete may reach once the gate has let a path through.
 */
module Access {
  import opened Keys
  import opened ObjectStore
  import opened Sequences
  import opened Sorting
  import opened Wrappers
  import R = RetriedOperations

  // ------------------------------------------------- str.strip

  /** Python's `str.isspace`, character by character. */
  predicate IsSpace(c: char) {
    || '\t' <= c <= '\r' || '\U{1C}' <= c <= ' ' || c == '\U{85}' || c == '\U{A0}' || c == '\U{1680}'
    || '\U{2000}' <= c <= '\U{200A}' || '\U{2028}' <= c <= '\U{2029}' || c == '\U{202F}' || c == '\U{205F}'
    || c == '\U{3000}'
  }

  lemma SlashIsNoSpace()
    ensures !IsSpace(SLASH)
  {
  }

  function LStrip(s: string): (r: string)
    ensures |r| <= |s|
    ensures r != [] ==> !IsSpace(r[0])
    ensures s != [] && !IsSpace(s[0]) ==> r == s
  {
    hide IsSpace;
    if s != [] && IsSpace(s[0]) then
      LStrip(s[1..])
    else s
  }

  lemma {:induction false} LStripIsSuffix(s: string)
    ensures s[|s| - |LStrip(s)|..] == LStrip(s)
  {
    hide IsSpace;
    if LeadingSpace(s) {
      LStripIsSuffix(s[1..]);
      assert s[|s| - |LStrip(s)|..] == s[1..][|s| - 1 - |LStrip(s)|..];
    }
  }

  function RStrip(s: string): (r: string)
    ensures r <= s
    ensures r != [] ==> !IsSpace(r[|r| - 1])
    ensures |r| < |s| ==> IsSpace(s[|r|]) && IsSpace(s[|s| - 1])
  {
    hide IsSpace;
    if s != [] && IsSpace(s[|s| - 1]) then RStrip(s[..|s| - 1]) else s
  }

  lemma {:induction false} LStripIsExact(s: string)
    ensures forall i :: 0 <= i < |s| - |LStrip(s)| ==> IsSpace(s[i])
  {
    hide IsSpace;
    if s != [] && IsSpace(s[0]) {
      LStripIsExact(s[1..]);
      forall i | 0 <= i < |s| - |LStrip(s)| ensures IsSpace(s[i]) { if i > 0 { assert s[i] == s[1..][i - 1]; } }
    }
  }

  lemma {:induction false} RStripIsExact(s: string)
    ensures forall i :: |RStrip(s)| <= i < |s| ==> IsSpace(s[i])
  {
    hide IsSpace;
    if s != [] && IsSpace(s[|s| - 1]) { RStripIsExact(s[..|s| - 1]); }
  }

  /** The white space there is, by code point. */
  lemma Spaces(c: char)
    ensures IsSpace(c) <==> c as int in {
              9, 10, 11, 12, 13, 28, 29, 30, 31, 32, 0x85, 0xA0, 0x1680,
              0x2000, 0x2001, 0x2002, 0x2003, 0x2004, 0x2005, 0x2006, 0x2007, 0x2008, 0x2009, 0x200A,
              0x2028, 0x2029, 0x202F, 0x205F, 0x3000}
  {
  }

  /** Python's `s.strip()`. */
  function Strip(s: string): (r: string) {
    RStrip(LStrip(s))
  }

  predicate LeadingSpace(s: string) { s != [] && IsSpace(s[0]) }

  predicate TrailingSpace(s: string) { s != [] && IsSpace(s[|s| - 1]) }

  lemma StripShape(s: string)
    ensures !LeadingSpace(Strip(s)) && !TrailingSpace(Strip(s)) && |Strip(s)| <= |s|
    ensures !LeadingSpace(s) ==> Strip(s) <= s
    ensures !LeadingSpace(s) && |Strip(s)| < |s| ==> IsSpace(s[|Strip(s)|]) && TrailingSpace(s)
    ensures !LeadingSpace(s) && !TrailingSpace(s) ==> Strip(s) == s
  {
    hide IsSpace, LStrip, RStrip;
    var l := LStrip(s);
    if l != [] && RStrip(l) != [] { assert RStrip(l)[0] == l[0]; }
  }

  // ------------------------------------------------- sanitizing

  predicate Contains(s: string, part: string) {
    part <= s || (s != [] && Contains(s[1..], part))
  }

  predicate IsControl(c: char) { c <= '\U{1F}' || c == '\U{7F}' }

  predicate HasControl(s: string) {
    s != [] && (IsControl(s[0]) || HasControl(s[1..]))
  }

  /** `sanitize_path`; None stands for its ValueError. */
  function SanitizePath(path: string): (r: Option<string>) {
    if path == [] then Some([]) else
      var stripped := Strip(path);
      if Contains(stripped, "..") || (stripped != [] && stripped[0] == SLASH) then None else
        var p := StripSlash(stripped);
        if HasControl(p) then None else Some(p)
  }

  /** `normalize_access_key`; None stands for its PermissionError. */
  function NormalizeAccessKey(raw: string): Option<string> {
    if raw == [] then Some([])
    else if Contains(raw, "://") then None
    else SanitizePath(raw)
  }

  lemma {:induction false} ContainsExactly(s: string, part: string)
    ensures Contains(s, part) <==> exists i :: 0 <= i <= |s| && part <= s[i..]
  {
    if s != [] {
      ContainsExactly(s[1..], part);
      assert s[0..] == s;
      if i :| 0 <= i <= |s| && part <= s[i..] { if i > 0 { assert s[i..] == s[1..][i - 1..]; } }
      if i :| 0 <= i <= |s[1..]| && part <= s[1..][i..] { assert s[i + 1..] == s[1..][i..]; }
    } else {
      assert s[0..] == s;
    }
  }

  lemma {:induction false} HasControlExactly(s: string)
    ensures HasControl(s) <==> exists i :: 0 <= i < |s| && (s[i] as int < 32 || s[i] as int == 127)
  {
    if s != [] {
      HasControlExactly(s[1..]);
      if i :| 0 <= i < |s| && (s[i] as int < 32 || s[i] as int == 127) { if i > 0 { assert s[i] == s[1..][i - 1]; } }
      if i :| 0 <= i < |s[1..]| && (s[1..][i] as int < 32 || s[1..][i] as int == 127) {
        assert s[i + 1] == s[1..][i];
      }
    }
  }

  /**
   * Which keys the gate can read at all: no URI, and once stripped no "..", no
   * leading slash and no control character; the key is what is left of the
   * slashes at the end.
   */
  lemma ReadableKeys(raw: string)
    requires raw != []
    ensures var s := Strip(raw);
            && (NormalizeAccessKey(raw).Some? <==>
                  && (forall i :: 0 <= i <= |raw| ==> !("://" <= raw[i..]))
                  && (forall i :: 0 <= i <= |s| ==> !(".." <= s[i..]))
                  && (s != [] ==> s[0] != SLASH)
                  && (forall i :: 0 <= i < |RStripSlash(s)| ==>
                        RStripSlash(s)[i] as int >= 32 && RStripSlash(s)[i] as int != 127))
            && (NormalizeAccessKey(raw).Some? ==> NormalizeAccessKey(raw).value == RStripSlash(s))
  {
    var s := Strip(raw);
    ContainsExactly(raw, "://");
    ContainsExactly(s, "..");
    HasControlExactly(RStripSlash(s));
    hide Strip, Contains, HasControl, RStripSlash, LStripSlash;
    assert s == [] || s[0] != SLASH ==> LStripSlash(s) == s;
  }

  // ------------------------------------------------- allowed prefixes

  /** An allowed prefix as a segment boundary: stripped, with one slash at its end unless it has one. */
  function Boundary(allowedPrefix: string): string {
    var p := Strip(allowedPrefix);
    if p == [] || p[|p| - 1] == SLASH then p else p + [SLASH]
  }

  /** `key_within_allowed_prefix` */
  predicate KeyWithinAllowedPrefix(key: Key, allowedPrefix: string) {
    var prefix := Boundary(allowedPrefix);
    && prefix != [] && key != []
    && (key == prefix[..|prefix| - 1] || prefix <= key)
  }

  /** A key an allowed prefix covers: the folder's own name, or anything in its tree. */
  predicate Covered(k: Key, prefixes: seq<string>) {
    exists i :: 0 <= i < |prefixes| && KeyWithinAllowedPrefix(k, prefixes[i])
  }

  /**
   * What an allowed prefix allows: its own name and whatever lies below it, at
   * a slash; nothing if it is blank.
   */
  lemma PrefixMeansItsTree(key: Key, allowedPrefix: string)
    ensures var p := Strip(allowedPrefix);
            KeyWithinAllowedPrefix(key, allowedPrefix) <==>
              && key != [] && p != []
              && if p[|p| - 1] == SLASH then p <= key || key + [SLASH] == p else key == p || p + [SLASH] <= key
  {
    hide Strip;
    var p := Strip(allowedPrefix);
    if p != [] && p[|p| - 1] == SLASH { assert p == p[..|p| - 1] + [SLASH]; }
    if p != [] { assert (p + [SLASH])[..|p|] == p; }
  }

  /** A key that lies in the tree of an allowed prefix, at a segment boundary. */
  predicate Confined(k: Key, prefixes: seq<string>) {
    exists i :: 0 <= i < |prefixes| && Boundary(prefixes[i]) != [] && Boundary(prefixes[i]) <= k
  }

  // ------------------------------------------------- roles and buckets

  datatype Role = Role(name: string, allowedBuckets: Option<seq<string>>, allowedPrefixes: Option<seq<string>>)

  datatype Config = Config(roles: seq<Role>, sharedBucket: Option<string>)

  datatype User = User(isAdmin: bool, allowedRoles: seq<string>, defaultRole: Option<string>)

  datatype Denial = RoleDenied | BucketDenied | PrefixDenied

  /** `validate_role_access` */
  function ValidateRole(role: Option<string>, user: User): Result<Option<string>, Denial> {
    if user.isAdmin then Ok(role) else
      var resolved :=
        if role.Some? then role
        else if user.defaultRole.Some? && user.defaultRole.value in user.allowedRoles then user.defaultRole
        else if user.allowedRoles != [] then Some(user.allowedRoles[0])
        else None;
      if resolved.Some? && resolved.value in user.allowedRoles then Ok(resolved) else Err(RoleDenied)
  }

  function FindRole(roles: seq<Role>, name: Option<string>): Option<Role> {
    if roles == [] then None
    else if Some(roles[0].name) == name then Some(roles[0])
    else FindRole(roles[1..], name)
  }

  /** `role_allowed_buckets`; None means every bucket. */
  function AllowedBuckets(role: Role, config: Config): Option<seq<string>> {
    if role.allowedBuckets.Some? && role.allowedBuckets.value != [] then role.allowedBuckets
    else if config.sharedBucket.Some? && Strip(config.sharedBucket.value) != [] then
      Some([Strip(config.sharedBucket.value)])
    else None
  }

  predicate BucketAllowed(role: Role, config: Config, bucket: string) {
    var allowed := AllowedBuckets(role, config);
    allowed.Some? ==> bucket in allowed.value
  }

  /** `any(key_within_allowed_prefix(key, p) for p in prefixes)` on the normalized key. */
  predicate PrefixAllowed(objectKey: string, prefixes: seq<string>) {
    var key := NormalizeAccessKey(objectKey);
    key.Some? && Covered(key.value, prefixes)
  }

  /** `validate_storage_access` */
  function ValidateStorageAccess(role: Option<string>, bucket: string, user: User, config: Config, objectKey: string)
    : Result<Option<string>, Denial>
  {
    var validated := ValidateRole(role, user);
    if validated.Err? then validated else
      var found := FindRole(config.roles, validated.value);
      if found.None? then validated
      else if !BucketAllowed(found.value, config, bucket) then Err(BucketDenied)
      else if found.value.allowedPrefixes.Some? && !PrefixAllowed(objectKey, found.value.allowedPrefixes.value)
      then Err(PrefixDenied)
      else validated
  }

  // ------------------------------------------------- where a listing starts

  /** A listing goes to S3 under a path, or is answered by folder names without S3. */
  datatype ListTarget = Listed(path: string) | Virtual(names: seq<string>)

  /** `_prefix_as_list_path` */
  function PrefixAsListPath(raw: string): string { StripSlash(Strip(raw)) }

  function ListPaths(prefixes: seq<string>): seq<string> {
    if prefixes == [] then [] else
      var p := PrefixAsListPath(prefixes[0]);
      (if p == [] then [] else [p]) + ListPaths(prefixes[1..])
  }

  /** Python's `sorted(set(xs), key=...)`: each element once. */
  function SortedDistinct(xs: seq<string>, lower: string -> string): seq<string> {
    SortBy(Distinct(xs), ByLower(lower))
  }

  function ByLower(lower: string -> string): (string, string) -> bool {
    (a: string, b: string) => LessEq(lower(a), lower(b))
  }

  /** Python's `set(xs)`, in order of first appearance. */
  function Distinct(xs: seq<string>): seq<string> {
    if xs == [] then [] else
      var rest := Distinct(xs[..|xs| - 1]);
      if xs[|xs| - 1] in rest then rest else rest + [xs[|xs| - 1]]
  }

  /** `prepare_list_path` for a role that is configured with `prefixes`, past the role and bucket checks. */
  function PrefixEntry(path: string, prefixes: seq<string>, lower: string -> string): Result<ListTarget, Denial> {
    if path != [] then
      if PrefixAllowed(path, prefixes) then Ok(Listed(path)) else Err(PrefixDenied)
    else
      var norms := ListPaths(prefixes);
      if norms == [] then Err(PrefixDenied)
      else if |norms| == 1 then
        if PrefixAllowed(norms[0], prefixes) then Ok(Listed(norms[0])) else Err(PrefixDenied)
      else Ok(Virtual(SortedDistinct(norms, lower)))
  }

  /** `prepare_list_path` */
  function PrepareListPath(role: Option<string>, bucket: string, user: User, config: Config, path: string,
                           lower: string -> string): Result<ListTarget, Denial>
  {
    var validated := ValidateRole(role, user);
    if validated.Err? then Err(validated.error) else
      var found := FindRole(config.roles, validated.value);
      if found.None? then Ok(Listed(path))
      else if !BucketAllowed(found.value, config, bucket) then Err(BucketDenied)
      else if found.value.allowedPrefixes.None? then Ok(Listed(path))
      else PrefixEntry(path, found.value.allowedPrefixes.value, lower)
  }

  /** The prefix list of the role a request runs under; None when it has no prefixes to keep to. */
  function PrefixesInForce(role: Option<string>, user: User, config: Config): Option<seq<string>> {
    var validated := ValidateRole(role, user);
    if validated.Err? then None else
      var found := FindRole(config.roles, validated.value);
      if found.None? then None else found.value.allowedPrefixes
  }

  /** The S3 prefix every listing of `path` uses. */
  function ListingPrefix(path: string): Key {
    if path == [] then [] else path + [SLASH]
  }

  // ------------------------------------------------- where an accepted path lies

  lemma BoundaryShape(p: string)
    requires Boundary(p) != []
    ensures var b := Boundary(p);
            !LeadingSpace(b) && b[|b| - 1] == SLASH && Strip(p) != [] && Strip(p) <= b && |b| <= |Strip(p)| + 1
  {
    hide IsSpace, Strip;
    StripShape(p);
  }

  /** An accepted path, stripped, is its normalized key and perhaps slashes. */
  lemma NormalizedPath(path: string)
    requires path != [] && NormalizeAccessKey(path).Some?
    ensures var s, key := Strip(path), NormalizeAccessKey(path).value;
            && key <= s && key == RStripSlash(s)
            && (key != [] ==> key[0] != SLASH)
            && (|key| < |s| ==> s[|key|] == SLASH && s[|s| - 1] == SLASH)
  {
    hide Strip, RStripSlash, LStripSlash, Contains, HasControl;
    var s := Strip(path);
    assert s == [] || s[0] != SLASH;
    assert LStripSlash(s) == s;
  }

  /**
   * A path that keeps its tree: no whitespace in front, and none behind unless
   * a slash comes before it.
   */
  predicate Tidy(path: string) {
    !LeadingSpace(path) && (!TrailingSpace(path) || (Strip(path) != [] && Strip(path)[|Strip(path)| - 1] == SLASH))
  }

  lemma TailStartsWithSlash(key: string, s: string, path: string)
    requires key <= s <= path
    requires |key| < |s| ==> s[|key|] == SLASH
    requires |key| == |s| ==> |s| == |path|
    ensures key + [SLASH] <= path + [SLASH]
  {
  }

  lemma KeyFolderIsPrefix(path: string)
    requires path != [] && Tidy(path) && NormalizeAccessKey(path).Some?
    ensures NormalizeAccessKey(path).value + [SLASH] <= path + [SLASH]
  {
    var s, key := Strip(path), NormalizeAccessKey(path).value;
    NormalizedPath(path);
    StripShape(path);
    hide IsSpace, Strip, NormalizeAccessKey, RStripSlash;
    assert s != [] && |key| == |s| ==> s[|s| - 1] != SLASH;
    TailStartsWithSlash(key, s, path);
  }

  /** Whatever lies in the folder of a key that a prefix allows lies in that prefix's tree. */
  lemma AllowedFolderIsConfined(key: string, folder: Key, prefixes: seq<string>)
    requires Covered(key, prefixes) && key + [SLASH] <= folder
    ensures Confined(folder, prefixes)
  {
    hide Boundary;
    var i :| 0 <= i < |prefixes| && KeyWithinAllowedPrefix(key, prefixes[i]);
    var b := Boundary(prefixes[i]);
    assert b[|b| - 1] == SLASH by { BoundaryShape(prefixes[i]); }
    assert b == b[..|b| - 1] + [SLASH];
    assert b <= key + [SLASH];
    assert b <= folder;
  }

  /** The folder of an accepted, tidy path lies in the tree of the prefix that let it in. */
  lemma AcceptedFolderIsConfined(path: string, prefixes: seq<string>)
    requires path != [] && Tidy(path) && PrefixAllowed(path, prefixes)
    ensures Confined(path + [SLASH], prefixes)
    ensures Confined(NormalizeAccessKey(path).value + [SLASH], prefixes)
    ensures NormalizeAccessKey(path).value + [SLASH] <= path + [SLASH]
  {
    hide Tidy, NormalizeAccessKey, KeyWithinAllowedPrefix, Confined;
    var key := NormalizeAccessKey(path).value;
    KeyFolderIsPrefix(path);
    AllowedFolderIsConfined(key, key + [SLASH], prefixes);
    AllowedFolderIsConfined(key, path + [SLASH], prefixes);
  }

  lemma ConfinedExtends(a: Key, k: Key, prefixes: seq<string>)
    requires Confined(a, prefixes) && a <= k
    ensures Confined(k, prefixes)
  {
    hide Boundary;
    var i :| 0 <= i < |prefixes| && Boundary(prefixes[i]) != [] && Boundary(prefixes[i]) <= a;
    assert Boundary(prefixes[i]) <= k;
  }

  /**
   * Tidiness is exactly what confinement needs: an accepted path's folder lies
   * in the tree for every prefix list that accepts it if and only if the path
   * is tidy.  (" a" and "a " pass a role scoped to "a", yet name folders
   * outside "a/".)
   */
  lemma TidyPathsStayInside(path: string)
    requires NormalizeAccessKey(path).Some? && NormalizeAccessKey(path).value != []
    ensures Tidy(path) <==> (forall prefixes :: PrefixAllowed(path, prefixes) ==> Confined(path + [SLASH], prefixes))
  {
    hide IsSpace, Strip, Confined, PrefixAllowed, NormalizeAccessKey, Tidy;
    if Tidy(path) {
      EmptyIsEmpty();
      forall prefixes | PrefixAllowed(path, prefixes) ensures Confined(path + [SLASH], prefixes) {
        AcceptedFolderIsConfined(path, prefixes);
      }
    } else {
      UntidyPathLeaks(path);
    }
  }

  lemma EmptyIsEmpty()
    ensures NormalizeAccessKey([]) == Some([])
  {
  }

  /** A key with no whitespace in front, followed by a slash, is its own boundary. */
  lemma OwnBoundary(key: string)
    requires key != [] && !LeadingSpace(key)
    ensures Boundary(key + [SLASH]) == key + [SLASH]
    ensures KeyWithinAllowedPrefix(key, key + [SLASH])
  {
    var p := key + [SLASH];
    SlashIsNoSpace();
    hide IsSpace, Strip;
    assert p[0] == key[0];
    StripShape(p);
    assert p[..|p| - 1] == key;
  }

  lemma UntidyFolder(path: string, key: string)
    requires path != [] && key != [] && !Tidy(path) && key <= Strip(path)
    requires |key| < |Strip(path)| ==> Strip(path)[|Strip(path)| - 1] == SLASH
    ensures !LeadingSpace(key) && !(key + [SLASH] <= path + [SLASH])
  {
    SlashIsNoSpace();
    hide IsSpace, Strip;
    StripShape(path);
    var s := Strip(path);
    assert key[0] == s[0];
    if !LeadingSpace(path) {
      assert key == s && |s| < |path|;
      assert (path + [SLASH])[|key|] == path[|key|];
    } else {
      assert (path + [SLASH])[0] == path[0] && (key + [SLASH])[0] == key[0];
    }
  }

  /** The prefix list that accepts an untidy path and does not hold its folder. */
  lemma UntidyPathLeaks(path: string)
    requires NormalizeAccessKey(path).Some? && NormalizeAccessKey(path).value != [] && !Tidy(path)
    ensures var leak := [NormalizeAccessKey(path).value + [SLASH]];
            PrefixAllowed(path, leak) && !Confined(path + [SLASH], leak)
  {
    var key := NormalizeAccessKey(path).value;
    NormalizedPath(path);
    hide NormalizeAccessKey, RStripSlash, Strip, Tidy, LeadingSpace, Boundary, KeyWithinAllowedPrefix;
    UntidyFolder(path, key);
    OwnBoundary(key);
    assert KeyWithinAllowedPrefix(key, [key + [SLASH]][0]);
  }

  // ------------------------------------------------- the empty path

  lemma {:induction false} ListPathsComeFromPrefixes(prefixes: seq<string>, n: string)
    ensures n in ListPaths(prefixes) <==> n != [] && exists p :: p in prefixes && PrefixAsListPath(p) == n
  {
    hide PrefixAsListPath;
    if prefixes != [] {
      ListPathsComeFromPrefixes(prefixes[1..], n);
      assert prefixes == [prefixes[0]] + prefixes[1..];
      assert prefixes[0] in prefixes;
      forall p ensures p in prefixes <==> p == prefixes[0] || p in prefixes[1..] { }
    }
  }

  lemma {:induction false} DistinctKeepsEach(xs: seq<string>)
    ensures forall x :: x in Distinct(xs) <==> x in xs
    ensures NoDuplicates(Distinct(xs))
  {
    if xs != [] {
      DistinctKeepsEach(xs[..|xs| - 1]);
      assert xs == xs[..|xs| - 1] + [xs[|xs| - 1]];
    }
  }

  lemma OnlyListPath(prefixes: seq<string>, p: string)
    requires |ListPaths(prefixes)| == 1 && p in prefixes && PrefixAsListPath(p) != []
    ensures PrefixAsListPath(p) == ListPaths(prefixes)[0]
  {
    hide ListPaths, PrefixAsListPath;
    ListPathsComeFromPrefixes(prefixes, PrefixAsListPath(p));
  }

  /** The single prefix an empty path is sent to is listed exactly inside its own tree. */
  lemma SinglePrefixIsConfined(prefixes: seq<string>)
    requires |ListPaths(prefixes)| == 1 && PrefixAllowed(ListPaths(prefixes)[0], prefixes)
    ensures ListPaths(prefixes)[0] != [] && Confined(ListPaths(prefixes)[0] + [SLASH], prefixes)
  {
    var n := ListPaths(prefixes)[0];
    assert n != [] by { ListPathsComeFromPrefixes(prefixes, n); }
    hide ListPaths, PrefixAsListPath, NormalizeAccessKey, KeyWithinAllowedPrefix, Confined;
    hide Boundary, RStripSlash, Strip, IsSpace;
    var key := NormalizeAccessKey(n).value;
    var i :| 0 <= i < |prefixes| && KeyWithinAllowedPrefix(key, prefixes[i]);
    var p := prefixes[i];
    KeyIsNoLonger(n, p);
    PrefixMatchesItsOwnPath(p, key);
    OnlyListPath(prefixes, p);
    MatchesOwnPath(p, key, n);
    BoundaryConfines(n + [SLASH], prefixes, i);
  }

  lemma BoundaryConfines(k: Key, prefixes: seq<string>, i: nat)
    requires i < |prefixes| && Boundary(prefixes[i]) != [] && Boundary(prefixes[i]) <= k
    ensures Confined(k, prefixes)
  {
  }

  lemma KeyIsNoLonger(n: string, p: string)
    requires n != [] && NormalizeAccessKey(n).Some? && KeyWithinAllowedPrefix(NormalizeAccessKey(n).value, p)
    ensures var key := NormalizeAccessKey(n).value; key != [] && key[0] != SLASH && |key| <= |n|
  {
    NormalizedPath(n);
    StripShape(n);
    hide IsSpace, Strip, NormalizeAccessKey, RStripSlash, Boundary;
  }

  lemma MatchesOwnPath(p: string, key: string, n: string)
    requires KeyWithinAllowedPrefix(key, p) && n == RStripSlash(Strip(p)) && |key| <= |n|
    ensures Boundary(p) != [] && Boundary(p) <= n + [SLASH]
  {
    var b := Boundary(p);
    hide Strip, RStripSlash;
    assert n <= b && b[|b| - 1] == SLASH by { BoundaryShape(p); hide Boundary; }
    assert |b| <= |n| + 1 && b == b[..|b| - 1] + [SLASH];
  }

  lemma PrefixMatchesItsOwnPath(p: string, key: string)
    requires key != [] && key[0] != SLASH && KeyWithinAllowedPrefix(key, p)
    ensures PrefixAsListPath(p) != [] && PrefixAsListPath(p) == RStripSlash(Strip(p))
  {
    BoundaryShape(p);
    hide IsSpace, Strip, RStripSlash, LStripSlash, Boundary;
    var s := Strip(p);
    assert s[0] == Boundary(p)[0] == key[0];
    assert LStripSlash(s) == s;
    assert RStripSlash(s) != [];
  }

  // ------------------------------------------------- what a listing may reach

  /**
   * Under a role with prefixes, whatever key a listing finds lies in the tree
   * of an allowed prefix; the bucket root is never listed.
   */
  lemma ListingIsConfined(role: Option<string>, bucket: string, user: User, config: Config, path: string,
                          lower: string -> string, objs: seq<Obj>, o: Obj)
    requires PrefixesInForce(role, user, config).Some? && Tidy(path)
    requires PrepareListPath(role, bucket, user, config, path, lower).Ok?
    requires PrepareListPath(role, bucket, user, config, path, lower).value.Listed?
    ensures var p := PrepareListPath(role, bucket, user, config, path, lower).value.path;
            && ListingPrefix(p) != []
            && (o in Under(objs, ListingPrefix(p)) ==> Confined(o.key, PrefixesInForce(role, user, config).value))
  {
    var p := PrepareListPath(role, bucket, user, config, path, lower).value.path;
    var prefixes := PrefixesInForce(role, user, config).value;
    assert PrefixEntry(path, prefixes, lower) == Ok(Listed(p));
    EntryIsConfined(path, prefixes, lower, p);
    UnderMembers(objs, ListingPrefix(p), o);
    hide Confined, PrepareListPath, Under;
    if o in Under(objs, ListingPrefix(p)) { ConfinedExtends(ListingPrefix(p), o.key, prefixes); }
  }

  lemma EntryIsConfined(path: string, prefixes: seq<string>, lower: string -> string, p: string)
    requires Tidy(path) && PrefixEntry(path, prefixes, lower) == Ok(Listed(p))
    ensures p != [] && Confined(p + [SLASH], prefixes)
  {
    hide PrefixAllowed, ListPaths, Confined, Tidy, SortedDistinct;
    if path != [] {
      AcceptedFolderIsConfined(path, prefixes);
    } else {
      SinglePrefixIsConfined(prefixes);
    }
  }

  /**
   * The empty path under a role with prefixes: denied, sent to the one prefix,
   * or answered by one folder name per distinct prefix, without asking S3.
   */
  lemma EmptyPathNeverMeansTheRoot(prefixes: seq<string>, lower: string -> string)
    ensures match PrefixEntry([], prefixes, lower)
            case Err(e) => e == PrefixDenied
            case Ok(Listed(p)) =>
              && p != []
              && (forall q :: q in prefixes && PrefixAsListPath(q) != [] ==> PrefixAsListPath(q) == p)
            case Ok(Virtual(names)) =>
              && (forall n :: n in names <==> n != [] && exists q :: q in prefixes && PrefixAsListPath(q) == n)
              && NoDuplicates(names)
              && (forall i, j :: 0 <= i < j < |names| ==>
                    lower(names[i]) == lower(names[j]) || Less(lower(names[i]), lower(names[j])))
    ensures PrefixEntry([], prefixes, lower).Ok?
       <==> |ListPaths(prefixes)| > 1 || (|ListPaths(prefixes)| == 1 && PrefixAllowed(ListPaths(prefixes)[0], prefixes))
    ensures PrefixEntry([], prefixes, lower).Ok? && PrefixEntry([], prefixes, lower).value.Virtual?
       <==> |ListPaths(prefixes)| > 1
  {
    var norms := ListPaths(prefixes);
    hide ListPaths, PrefixAllowed, PrefixAsListPath, Distinct, Less, SortBy;
    forall n ensures n in norms <==> n != [] && exists q :: q in prefixes && PrefixAsListPath(q) == n {
      ListPathsComeFromPrefixes(prefixes, n);
    }
    hide SortedDistinct;
    SortedDistinctKeepsEach(norms, lower);
    SortedDistinctIsSorted(norms, lower);
    if |norms| == 1 {
      forall q | q in prefixes && PrefixAsListPath(q) != [] ensures PrefixAsListPath(q) == norms[0] {
        OnlyListPath(prefixes, q);
      }
      assert norms[0] in norms;
    }
  }

  lemma SortedDistinctIsSorted(xs: seq<string>, lower: string -> string)
    ensures var names := SortedDistinct(xs, lower);
            forall i, j :: 0 <= i < j < |names| ==>
              lower(names[i]) == lower(names[j]) || Less(lower(names[i]), lower(names[j]))
  {
    hide SortBy, Distinct, Less;
    forall a: string, b: string ensures ByLower(lower)(a, b) || ByLower(lower)(b, a) { LessTotal(lower(a), lower(b)); }
    forall a: string, b: string, c: string | ByLower(lower)(a, b) && ByLower(lower)(b, c) ensures ByLower(lower)(a, c) {
      if Less(lower(a), lower(b)) && Less(lower(b), lower(c)) { LessTransitive(lower(a), lower(b), lower(c)); }
    }
    SortBySorts(Distinct(xs), ByLower(lower));
    var names := SortedDistinct(xs, lower);
    forall i, j | 0 <= i < j < |names|
      ensures lower(names[i]) == lower(names[j]) || Less(lower(names[i]), lower(names[j]))
    {
      assert ByLower(lower)(names[i], names[j]);
    }
  }

  /** One list path for each prefix that is not blank, in order. */
  lemma {:induction false} ListPathsInOrder(a: seq<string>, b: seq<string>)
    ensures ListPaths(a + b) == ListPaths(a) + ListPaths(b)
    ensures |b| == 1 ==> ListPaths(b) == if StripSlash(Strip(b[0])) == [] then [] else [StripSlash(Strip(b[0]))]
  {
    hide Strip, StripSlash;
    if |b| == 1 { assert ListPaths(b[1..]) == []; }
    if a == [] {
      assert a + b == b;
    } else {
      ListPathsInOrder(a[1..], b);
      assert (a + b)[0] == a[0] && (a + b)[1..] == a[1..] + b;
    }
  }

  lemma SortedDistinctKeepsEach(xs: seq<string>, lower: string -> string)
    ensures forall x :: x in SortedDistinct(xs, lower) <==> x in xs
    ensures NoDuplicates(SortedDistinct(xs, lower))
  {
    hide SortBy, Distinct, ByLower;
    DistinctKeepsEach(xs);
    SameElements(Distinct(xs), SortedDistinct(xs, lower));
    PartHasNoDuplicates(SortedDistinct(xs, lower), Distinct(xs));
  }

  // ------------------------------------------------- what a delete may reach

  /** What the web route of `delete_file` hands to the delete; None when it refuses the path. */
  function DeletePath(raw: string): Option<string> {
    var recursive := EndsInSlash(RStrip(raw));
    var path := SanitizePath(raw);
    if path.None? || path.value == [] then None
    else if recursive && !EndsInSlash(path.value) then Some(path.value + [SLASH])
    else path
  }

  predicate EndsInSlash(s: string) { s != [] && s[|s| - 1] == SLASH }

  /** A deleted key is where a delete of `path` may reach: covered, and in a tree if the delete is recursive. */
  predicate MayDelete(path: string, k: Key, prefixes: seq<string>) {
    Covered(k, prefixes) && (EndsInSlash(path) ==> Confined(k, prefixes))
  }

  /** Every key a delete of an accepted, tidy path removes is covered, and a recursive one stays inside a tree. */
  lemma DeleteIsConfined(path: string, prefixes: seq<string>, k: Key)
    requires PrefixAllowed(path, prefixes) && Tidy(path) && R.IsTarget(path, k)
    ensures MayDelete(path, k, prefixes)
  {
    assert path != [] by { EmptyKeyIsDenied(prefixes); }
    hide IsSpace, Strip, Confined, NormalizeAccessKey, KeyWithinAllowedPrefix, RStripSlash, Tidy;
    var key := NormalizeAccessKey(path).value;
    AcceptedFolderIsConfined(path, prefixes);
    if EndsInSlash(path) {
      RecursiveTarget(path);
      ConfinedExtends(key + [SLASH], k, prefixes);
      ConfinedIsCovered(k, prefixes);
    } else if key == path {
      assert Covered(k, prefixes);
    } else {
      assert key + [SLASH] <= k;
      ConfinedExtends(key + [SLASH], k, prefixes);
      ConfinedIsCovered(k, prefixes);
    }
  }

  /** What a recursive delete of a tidy path lists is the folder of the key the gate looked at. */
  lemma RecursiveTarget(path: string)
    requires Tidy(path) && EndsInSlash(path) && NormalizeAccessKey(path).Some?
    ensures RStripSlash(path) == NormalizeAccessKey(path).value
  {
    NormalizedPath(path);
    StripShape(path);
    SlashIsNoSpace();
    hide IsSpace, Strip, RStripSlash, NormalizeAccessKey;
    assert Strip(path) == path;
  }

  /** A key an untidy path's delete removes: the key itself, or its folder without the trailing slashes. */
  function UntidyTarget(path: string): Key {
    if EndsInSlash(path) then RStripSlash(path) + [SLASH] else path
  }

  /**
   * Tidiness is exactly what deletes need as well: every key a delete of an
   * accepted path can remove is where it may reach, for every prefix list that
   * accepts the path, if and only if the path is tidy.
   */
  lemma TidyDeletesStayInside(path: string)
    requires NormalizeAccessKey(path).Some? && NormalizeAccessKey(path).value != []
    ensures Tidy(path) <==>
              (forall prefixes, k ::
                 PrefixAllowed(path, prefixes) && R.IsTarget(path, k) ==> MayDelete(path, k, prefixes))
  {
    hide IsSpace, Strip, Covered, Confined, PrefixAllowed, NormalizeAccessKey, Tidy, R.IsTarget;
    if Tidy(path) {
      forall prefixes, k | PrefixAllowed(path, prefixes) && R.IsTarget(path, k) ensures MayDelete(path, k, prefixes) {
        DeleteIsConfined(path, prefixes, k);
      }
    } else {
      UntidyDeleteLeaks(path);
      assert !MayDelete(path, UntidyTarget(path), [NormalizeAccessKey(path).value + [SLASH]]);
    }
  }

  /** The prefix list that accepts an untidy path, and the key outside of it that its delete removes. */
  lemma UntidyDeleteLeaks(path: string)
    requires NormalizeAccessKey(path).Some? && NormalizeAccessKey(path).value != [] && !Tidy(path)
    ensures var leak := [NormalizeAccessKey(path).value + [SLASH]];
            PrefixAllowed(path, leak) && R.IsTarget(path, UntidyTarget(path)) && !Covered(UntidyTarget(path), leak)
  {
    var key := NormalizeAccessKey(path).value;
    UntidyPathLeaks(path);
    assert path != [] by { EmptyIsEmpty(); }
    UntidyIsOutside(path, key);
    hide NormalizeAccessKey, Tidy, Boundary, PrefixAllowed;
    OwnBoundary(key);
  }

  lemma UntidyIsOutside(path: string, key: string)
    requires path != [] && !Tidy(path) && NormalizeAccessKey(path) == Some(key) && key != []
    ensures !LeadingSpace(key)
    ensures var k := UntidyTarget(path); k != key && !(key + [SLASH] <= k)
  {
    NormalizedPath(path);
    UntidyFolder(path, key);
    SlashIsNoSpace();
    hide NormalizeAccessKey, Strip, IsSpace, RStripSlash;
    var k := UntidyTarget(path);
    if EndsInSlash(path) {
      assert LeadingSpace(path) && k[0] == path[0];
    } else {
      assert k + [SLASH] == path + [SLASH];
      assert key == k ==> key + [SLASH] <= path + [SLASH];
      assert key + [SLASH] <= k ==> key + [SLASH] <= path + [SLASH];
    }
  }

  /** One such delete: a role scoped to "a/" may delete " a", a key outside "a/". */
  lemma SpacedKeyIsDeleted()
    ensures PrefixAllowed(" a", ["a/"]) && R.IsTarget(" a", " a") && !Covered(" a", ["a/"])
  {
    var path := " a";
    assert path[1..] == "a" && LStrip(path) == "a";
    assert Strip(path) == "a" && StripSlash("a") == "a";
    assert !Contains(path, "://") && !Contains("a", "..") && !HasControl("a") by { ShortStrings(); }
    assert NormalizeAccessKey(path) == Some("a");
    hide NormalizeAccessKey;
    UntidyDeleteLeaks(path);
    assert "a" + [SLASH] == "a/";
  }

  lemma ShortStrings()
    ensures !Contains(" a", "://") && !Contains("a", "..") && !HasControl("a")
  {
    assert !Contains([], "://") && !Contains([], "..") && !HasControl([]);
    assert " a"[1..] == "a" && "a"[1..] == [];
    assert !Contains("a", "://");
  }

  lemma ConfinedIsCovered(k: Key, prefixes: seq<string>)
    requires Confined(k, prefixes)
    ensures Covered(k, prefixes)
  {
    hide Boundary;
    var i :| 0 <= i < |prefixes| && Boundary(prefixes[i]) != [] && Boundary(prefixes[i]) <= k;
    assert KeyWithinAllowedPrefix(k, prefixes[i]);
  }

  lemma EmptyKeyIsDenied(prefixes: seq<string>)
    ensures !PrefixAllowed([], prefixes)
  {
  }

  // ------------------------------------------------- what the gate decides

  /**
   * Which role a request runs under: an admin under the one asked for, anybody
   * else under an own one, which is the one asked for, else the default one,
   * else the first; refused exactly when that leaves none.
   */
  lemma RoleIsOwn(role: Option<string>, user: User)
    ensures user.isAdmin ==> ValidateRole(role, user) == Ok(role)
    ensures !user.isAdmin && role.Some? ==>
              ValidateRole(role, user) == if role.value in user.allowedRoles then Ok(role) else Err(RoleDenied)
    ensures !user.isAdmin && role.None? ==>
              && (ValidateRole(role, user).Err? <==> user.allowedRoles == [])
              && (user.allowedRoles != [] ==>
                    && ValidateRole(role, user).value.Some?
                    && ValidateRole(role, user).value.value
                       == if user.defaultRole.Some? && user.defaultRole.value in user.allowedRoles
                          then user.defaultRole.value else user.allowedRoles[0])
  {
  }

  /** The role's entry is the first of that name. */
  lemma {:induction false} FirstOfThatName(roles: seq<Role>, name: string)
    ensures FindRole(roles, Some(name)).None? <==> forall i :: 0 <= i < |roles| ==> roles[i].name != name
    ensures FindRole(roles, Some(name)).Some? ==>
              exists i :: 0 <= i < |roles| && roles[i] == FindRole(roles, Some(name)).value && roles[i].name == name
                       && forall j :: 0 <= j < i ==> roles[j].name != name
  {
    if roles != [] && roles[0].name != name {
      FirstOfThatName(roles[1..], name);
      assert roles == [roles[0]] + roles[1..];
      if FindRole(roles[1..], Some(name)).Some? {
        var i :| 0 <= i < |roles[1..]| && roles[1..][i] == FindRole(roles[1..], Some(name)).value
              && roles[1..][i].name == name && forall j :: 0 <= j < i ==> roles[1..][j].name != name;
        assert roles[i + 1].name == name;
        forall j | 0 <= j < i + 1 ensures roles[j].name != name { if j > 0 { assert roles[j] == roles[1..][j - 1]; } }
      } else {
        forall i | 0 <= i < |roles| ensures roles[i].name != name { if i > 0 { assert roles[i] == roles[1..][i - 1]; } }
      }
    }
  }

  /** The buckets a role is confined to: its own list, else the shared bucket, else none in particular. */
  predicate OwnBucket(r: Role, config: Config, bucket: string) {
    if r.allowedBuckets.Some? && r.allowedBuckets.value != [] then bucket in r.allowedBuckets.value
    else config.sharedBucket.Some? && Strip(config.sharedBucket.value) != [] ==>
           bucket == Strip(config.sharedBucket.value)
  }

  /**
   * The gate, exactly.  A request passes if the user may use the role, and, for
   * a configured role, the bucket is one of the role's and some prefix of the
   * role allows the key, if it has prefixes.
   */
  lemma GateIsExact(role: Option<string>, bucket: string, user: User, config: Config, objectKey: string)
    ensures ValidateStorageAccess(role, bucket, user, config, objectKey).Ok? <==>
              && ValidateRole(role, user).Ok?
              && var found := FindRole(config.roles, ValidateRole(role, user).value);
                 found.Some? ==>
                   && OwnBucket(found.value, config, bucket)
                   && (found.value.allowedPrefixes.Some? ==>
                         && NormalizeAccessKey(objectKey).Some?
                         && exists p :: p in found.value.allowedPrefixes.value
                                     && KeyWithinAllowedPrefix(NormalizeAccessKey(objectKey).value, p))
    ensures ValidateStorageAccess(role, bucket, user, config, objectKey).Ok? ==>
              ValidateStorageAccess(role, bucket, user, config, objectKey) == ValidateRole(role, user)
  {
    hide Strip, NormalizeAccessKey, KeyWithinAllowedPrefix, ValidateRole, FindRole;
    if ValidateRole(role, user).Ok? {
      var found := FindRole(config.roles, ValidateRole(role, user).value);
      if found.Some? && found.value.allowedPrefixes.Some? && NormalizeAccessKey(objectKey).Some? {
        var prefixes, key := found.value.allowedPrefixes.value, NormalizeAccessKey(objectKey).value;
        if p :| p in prefixes && KeyWithinAllowedPrefix(key, p) {
          var i :| 0 <= i < |prefixes| && prefixes[i] == p;
          assert KeyWithinAllowedPrefix(key, prefixes[i]);
        }
      }
    }
  }

  /** The listing door keeps to the same roles and buckets, for the empty path too. */
  lemma ListingKeepsToOwnBuckets(role: Option<string>, bucket: string, user: User, config: Config, path: string,
                                 lower: string -> string)
    requires PrepareListPath(role, bucket, user, config, path, lower).Ok?
    ensures ValidateRole(role, user).Ok?
    ensures var found := FindRole(config.roles, ValidateRole(role, user).value);
            found.Some? ==> OwnBucket(found.value, config, bucket)
  {
    hide Strip, FindRole, ValidateRole, PrefixEntry;
  }

  /**
   * The empty path at the listing door: once role and bucket are accepted, a
   * role without prefixes lists the root, one with prefixes is sent on to them.
   */
  lemma EmptyPathAtTheDoor(role: Option<string>, bucket: string, user: User, config: Config, lower: string -> string)
    requires ValidateRole(role, user).Ok?
    ensures var found := FindRole(config.roles, ValidateRole(role, user).value);
            PrepareListPath(role, bucket, user, config, [], lower)
            == if found.Some? && !OwnBucket(found.value, config, bucket) then Err(BucketDenied)
               else match PrefixesInForce(role, user, config)
                    case None => Ok(Listed([]))
                    case Some(prefixes) => PrefixEntry([], prefixes, lower)
  {
    hide Strip, FindRole, ValidateRole, PrefixEntry;
  }

  /** Past the gate, a role with prefixes has one that allows the key; the empty key never passes. */
  lemma GateKeepsToPrefixes(role: Option<string>, bucket: string, user: User, config: Config, objectKey: string)
    requires PrefixesInForce(role, user, config).Some?
    ensures ValidateStorageAccess(role, bucket, user, config, objectKey).Ok? ==>
              objectKey != [] && PrefixAllowed(objectKey, PrefixesInForce(role, user, config).value)
  {
    hide FindRole, BucketAllowed, NormalizeAccessKey, KeyWithinAllowedPrefix, PrefixAllowed;
    if objectKey == [] { EmptyKeyIsDenied(PrefixesInForce(role, user, config).value); }
  }

  /** The listing door and the storage gate agree on every path but the empty one. */
  lemma ListingUsesTheGate(role: Option<string>, bucket: string, user: User, config: Config, path: string,
                           lower: string -> string)
    requires path != []
    ensures PrepareListPath(role, bucket, user, config, path, lower)
         == match ValidateStorageAccess(role, bucket, user, config, path)
            case Ok(_) => Ok(Listed(path))
            case Err(e) => Err(e)
  {
    hide FindRole, BucketAllowed, PrefixAllowed;
  }

  /** Checking again under the role the first check resolved changes nothing. */
  lemma GateIsStable(role: Option<string>, bucket: string, user: User, config: Config, objectKey: string)
    requires ValidateRole(role, user).Ok?
    ensures ValidateStorageAccess(ValidateRole(role, user).value, bucket, user, config, objectKey)
         == ValidateStorageAccess(role, bucket, user, config, objectKey)
  {
    hide FindRole, BucketAllowed, PrefixAllowed;
  }

  /** The web route tidies the path itself, so its deletes need no condition on what was sent. */
  lemma RoutedDeleteIsConfined(role: Option<string>, bucket: string, user: User, config: Config, raw: string, k: Key)
    requires PrefixesInForce(role, user, config).Some? && DeletePath(raw).Some?
    requires ValidateStorageAccess(role, bucket, user, config, DeletePath(raw).value).Ok?
    requires R.IsTarget(DeletePath(raw).value, k)
    ensures Covered(k, PrefixesInForce(role, user, config).value)
    ensures EndsInSlash(RStrip(raw)) ==> Confined(k, PrefixesInForce(role, user, config).value)
  {
    RoutedPathIsTrimmed(raw);
    hide PrefixesInForce, ValidateStorageAccess, DeletePath, PrefixAllowed, Covered, Confined, RStrip;
    hide LeadingSpace, TrailingSpace;
    GateKeepsToPrefixes(role, bucket, user, config, DeletePath(raw).value);
    DeleteIsConfined(DeletePath(raw).value, PrefixesInForce(role, user, config).value, k);
  }

  /** The route keeps the folder signal the sanitizer drops, and hands on a trimmed path. */
  lemma RoutedPathIsTrimmed(raw: string)
    requires DeletePath(raw).Some?
    ensures var path := DeletePath(raw).value;
            && path != [] && !LeadingSpace(path) && !TrailingSpace(path)
            && (EndsInSlash(path) <==> EndsInSlash(RStrip(raw)))
            && RStripSlash(path) == SanitizePath(raw).value == RStripSlash(Strip(raw))
  {
    var s, p := Strip(raw), SanitizePath(raw).value;
    SanitizedPath(raw);
    hide SanitizePath, LStrip, RStrip, Strip, RStripSlash;
    StripShape(raw);
    SlashIsNoSpace();
    hide IsSpace;
    assert p[0] == s[0];
    EndsAlike(raw);
    if |p| == |s| { assert p == s; }
  }

  lemma SanitizedPath(raw: string)
    requires SanitizePath(raw).Some? && SanitizePath(raw).value != []
    ensures var s, p := Strip(raw), SanitizePath(raw).value;
            p <= s && p[|p| - 1] != SLASH && (|p| < |s| ==> s[|s| - 1] == SLASH)
  {
    hide Strip, RStripSlash, LStripSlash, Contains, HasControl;
    var s := Strip(raw);
    assert LStripSlash(s) == s;
  }

  lemma {:induction false} EndsAlike(s: string)
    requires Strip(s) != []
    ensures EndsInSlash(Strip(s)) <==> EndsInSlash(RStrip(s))
  {
    if LeadingSpace(s) {
      assert Strip(s) == Strip(s[1..]) by { hide RStrip, IsSpace; }
      hide Strip;
      EndsAlike(s[1..]);
      assert RStrip(s[1..]) != [] by { LStripIsSuffix(s[1..]); RStripKeeps(s[1..], |s| - 1 - |LStrip(s[1..])|); }
      hide RStrip, LStrip, IsSpace;
      RStripKeepsHead(s);
    } else {
      hide RStrip, IsSpace;
      assert s == [] || LStrip(s) == s;
    }
  }

  lemma {:induction false} RStripKeeps(s: string, i: nat)
    requires i < |s| && !IsSpace(s[i])
    ensures i < |RStrip(s)|
  {
    hide IsSpace;
    if IsSpace(s[|s| - 1]) { RStripKeeps(s[..|s| - 1], i); }
  }

  lemma {:induction false} RStripKeepsHead(s: string)
    requires LeadingSpace(s) && RStrip(s[1..]) != []
    ensures RStrip(s) == [s[0]] + RStrip(s[1..])
    decreases |s|
  {
    hide IsSpace;
    var n := |s|;
    assert n > 1;
    if IsSpace(s[n - 1]) {
      assert s[1..][..n - 2] == s[..n - 1][1..];
      RStripKeepsHead(s[..n - 1]);
    } else {
      assert RStrip(s) == s && RStrip(s[1..]) == s[1..];
    }
  }
}
