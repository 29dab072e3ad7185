/**
 * Paths in the browser: percent-encoding per segment, joining, parents and
 * breadcrumbs.
 *
 * A well-formed string is a sequence of Unicode scalar values; a string with a
 * lone surrogate, which `encodeURIComponent` throws on, is not a `string` here.
 */
module PathCodec {
  import opened Keys
  import opened Wrappers
  import opened Bytes
  import Utf8

  // ------------------------------------------------- split and join

  /** `s.split("/")` */
  function Split(s: string): (r: seq<string>)
    ensures r != []
    decreases |s|
  {
    var i := SlashAt(s, 0);
    if i == |s| then [s] else [s[..i]] + Split(s[i + 1..])
  }

  /** `segments.join("/")` */
  function Join(segments: seq<string>): string {
    if segments == [] then []
    else if |segments| == 1 then segments[0]
    else segments[0] + [SLASH] + Join(segments[1..])
  }

  predicate SlashFree(segments: seq<string>) {
    forall s :: s in segments ==> SLASH !in s
  }

  lemma FirstSegment(a: string, s: string)
    requires SLASH !in a && a + [SLASH] <= s
    ensures SlashAt(s, 0) == |a|
  {
    var i := SlashAt(s, 0);
    assert s[|a|] == SLASH;
    assert forall k :: 0 <= k < |a| ==> s[k] == a[k] && a[k] in a;
    assert forall k :: 0 <= k < i ==> s[0..i][k] == s[k] && s[k] in s[0..i];
  }

  lemma NoSlashAtAll(s: string)
    ensures SLASH !in s <==> SlashAt(s, 0) == |s|
  {
    assert s[0..|s|] == s;
  }

  lemma {:induction false} JoinSplit(s: string)
    ensures Join(Split(s)) == s
    ensures SlashFree(Split(s))
    decreases |s|
  {
    var i := SlashAt(s, 0);
    assert s[0..i] == s[..i];
    if i < |s| {
      hide SlashAt;
      JoinSplit(s[i + 1..]);
      assert ([s[..i]] + Split(s[i + 1..]))[1..] == Split(s[i + 1..]);
      assert s == s[..i] + [SLASH] + s[i + 1..];
    }
  }

  lemma {:induction false} SplitJoin(segments: seq<string>)
    requires segments != [] && SlashFree(segments)
    ensures Split(Join(segments)) == segments
  {
    var a, s := segments[0], Join(segments);
    assert a in segments;
    if |segments| == 1 {
      NoSlashAtAll(a);
    } else {
      var rest := Join(segments[1..]);
      hide SlashAt, Join;
      FirstSegment(a, s);
      assert s[|a| + 1..] == rest && s[..|a|] == a;
      assert forall x :: x in segments[1..] ==> x in segments;
      SplitJoin(segments[1..]);
    }
  }

  // ------------------------------------------------- percent-encoding

  predicate Unescaped(c: char) {
    'a' <= c <= 'z' || 'A' <= c <= 'Z' || '0' <= c <= '9' || c in "-_.!~*'()"
  }

  function HexDigit(n: nat): char
    requires n < 16
  {
    if n < 10 then ('0' as int + n) as char else ('A' as int + n - 10) as char
  }

  /** Either case of letter is read. */
  function HexValue(c: char): Option<nat> {
    if '0' <= c <= '9' then Some(c as int - '0' as int)
    else if 'A' <= c <= 'F' then Some(c as int - 'A' as int + 10)
    else if 'a' <= c <= 'f' then Some(c as int - 'a' as int + 10)
    else None
  }

  function Percent(octets: seq<Byte>): string {
    if octets == [] then [] else
      ['%', HexDigit(octets[0] / 16), HexDigit(octets[0] % 16)] + Percent(octets[1..])
  }

  function EncodeChar(c: char): string {
    if Unescaped(c) then [c] else Percent(Utf8.EncodeScalar(c))
  }

  /** `encodeURIComponent` on a well-formed string. */
  function EncodeComponent(s: string): string {
    if s == [] then [] else EncodeChar(s[0]) + EncodeComponent(s[1..])
  }

  /** The next `n` percent-escapes of `s`, as octets. */
  function ReadOctets(s: string, n: nat): (r: Option<seq<Byte>>)
    ensures r.Some? ==> |r.value| == n && 3 * n <= |s|
  {
    if n == 0 then Some([])
    else if |s| < 3 || s[0] != '%' then None
    else
      var hi, lo := HexValue(s[1]), HexValue(s[2]);
      if hi.None? || lo.None? || hi.value >= 16 || lo.value >= 16 then None else
        var rest := ReadOctets(s[3..], n - 1);
        if rest.None? then None else Some([hi.value * 16 + lo.value] + rest.value)
  }

  /** How many octets a leading octet announces: one, or its leading 1 bits; 0 when it leads nothing. */
  function Announced(b: Byte): nat {
    if b < 0x80 then 1
    else if b < 0xC0 then 0
    else if b < 0xE0 then 2
    else if b < 0xF0 then 3
    else if b < 0xF8 then 4
    else 0
  }

  /** The character escaped at the head of `s` and the octets it took; None stands for a URIError. */
  function ReadEscaped(s: string): (r: Option<(char, nat)>)
    ensures r.Some? ==> 1 <= r.value.1 && 3 * r.value.1 <= |s|
  {
    var lead := ReadOctets(s, 1);
    if lead.None? then None else
      var n := Announced(lead.value[0]);
      var octets := ReadOctets(s, n);
      if n == 0 || octets.None? || Utf8.Width(octets.value) != n then None
      else Some((Utf8.Scalar(octets.value), n))
  }

  /** `decodeURIComponent`; None stands for its URIError. */
  function DecodeComponent(s: string): Option<string>
    decreases |s|
  {
    if s == [] then Some([])
    else if s[0] != '%' then
      var rest := DecodeComponent(s[1..]);
      if rest.None? then None else Some([s[0]] + rest.value)
    else
      var c := ReadEscaped(s);
      if c.None? then None else
        var rest := DecodeComponent(s[3 * c.value.1..]);
        if rest.None? then None else Some([c.value.0] + rest.value)
  }

  lemma HexRoundTrip(b: Byte)
    ensures HexValue(HexDigit(b / 16)) == Some(b / 16) && HexValue(HexDigit(b % 16)) == Some(b % 16)
    ensures b / 16 * 16 + b % 16 == b
    ensures Unescaped(HexDigit(b / 16)) && Unescaped(HexDigit(b % 16))
  {
  }

  lemma {:induction false} PercentSize(octets: seq<Byte>)
    ensures |Percent(octets)| == 3 * |octets|
  {
    if octets != [] { PercentSize(octets[1..]); }
  }

  /** Escapes read back as the octets they were written from, and a shorter read reads fewer. */
  lemma {:induction false} ReadsBackOctets(octets: seq<Byte>, rest: string, n: nat)
    requires n <= |octets|
    ensures ReadOctets(Percent(octets) + rest, n) == Some(octets[..n])
  {
    if n > 0 {
      var s := Percent(octets) + rest;
      HexRoundTrip(octets[0]);
      ReadsBackOctets(octets[1..], rest, n - 1);
      hide HexValue, HexDigit;
      assert s[3..] == Percent(octets[1..]) + rest;
      assert octets[..n] == [octets[0]] + octets[1..][..n - 1];
    }
  }

  lemma AnnouncedIsWidth(b: seq<Byte>)
    requires Utf8.Width(b) > 0
    ensures Announced(b[0]) == Utf8.Width(b)
  {
  }

  lemma ReadsBackEscaped(c: char, rest: string)
    ensures ReadEscaped(Percent(Utf8.EncodeScalar(c)) + rest) == Some((c, |Utf8.EncodeScalar(c)|))
  {
    var octets := Utf8.EncodeScalar(c);
    var s := Percent(octets) + rest;
    hide Utf8.EncodeScalar, Utf8.Width, Utf8.Scalar, Percent, ReadOctets, Announced;
    Utf8.ReadsBackScalar(c, []);
    assert octets + [] == octets;
    AnnouncedIsWidth(octets);
    ReadsBackOctets(octets, rest, 1);
    ReadsBackOctets(octets, rest, |octets|);
    assert octets[..|octets|] == octets;
  }

  lemma ReadsBackChar(c: char, rest: string)
    ensures DecodeComponent(EncodeChar(c) + rest)
         == if DecodeComponent(rest).None? then None else Some([c] + DecodeComponent(rest).value)
  {
    var s := EncodeChar(c) + rest;
    if Unescaped(c) {
      assert s[0] == c != '%' && s[1..] == rest;
    } else {
      var octets := Utf8.EncodeScalar(c);
      PercentSize(octets);
      assert s[0] == '%';
      assert s[3 * |octets|..] == rest;
      ReadsBackEscaped(c, rest);
    }
  }

  lemma {:induction false} ComponentRoundTrip(s: string)
    ensures DecodeComponent(EncodeComponent(s)) == Some(s)
  {
    if s != [] {
      hide DecodeComponent, EncodeChar;
      ReadsBackChar(s[0], EncodeComponent(s[1..]));
      ComponentRoundTrip(s[1..]);
      assert s == [s[0]] + s[1..];
    } else {
      assert EncodeComponent(s) == [];
    }
  }

  /** What may stand in an encoded segment: no slash, so it stays one segment of the URL. */
  predicate UrlSafe(s: string) {
    forall c :: c in s ==> Unescaped(c) || c == '%'
  }

  lemma {:induction false} PercentIsSafe(octets: seq<Byte>)
    ensures UrlSafe(Percent(octets))
  {
    if octets != [] {
      PercentIsSafe(octets[1..]);
      HexRoundTrip(octets[0]);
    }
  }

  lemma {:induction false} ComponentIsSafe(s: string)
    ensures UrlSafe(EncodeComponent(s)) && SLASH !in EncodeComponent(s)
  {
    if s != [] {
      ComponentIsSafe(s[1..]);
      if !Unescaped(s[0]) { PercentIsSafe(Utf8.EncodeScalar(s[0])); }
    }
  }

  /** A segment of unreserved characters is left as it is. */
  lemma {:induction false} PlainSegmentStays(s: string)
    requires forall c :: c in s ==>
               'a' <= c <= 'z' || 'A' <= c <= 'Z' || '0' <= c <= '9' || c in "-_.!~*'()"
    ensures EncodeComponent(s) == s
  {
    if s != [] {
      assert s[0] in s;
      assert forall c :: c in s[1..] ==> c in s;
      PlainSegmentStays(s[1..]);
    }
  }

  /** An escape is a percent sign and two digits, letters in upper case, for each octet. */
  lemma EscapesAreUpperCase(octet: Byte)
    ensures Percent([octet]) == ['%', "0123456789ABCDEF"[octet / 16], "0123456789ABCDEF"[octet % 16]]
  {
    assert Percent([octet][1..]) == [];
  }

  /** Escapes are read in either case. */
  lemma EitherCaseIsRead(n: nat)
    requires n < 16
    ensures HexValue("0123456789abcdef"[n]) == Some(n) && HexValue("0123456789ABCDEF"[n]) == Some(n)
  {
  }

  /** A percent sign that does not start an escape is an error. */
  lemma BadEscapeFails(s: string)
    requires s != [] && s[0] == '%' && (|s| < 3 || HexValue(s[1]).None? || HexValue(s[2]).None?)
    ensures DecodeComponent(s).None?
  {
    hide HexValue;
  }

  /** So is an escaped octet that leads no character. */
  lemma StrayOctetFails(octet: Byte, rest: string)
    requires 0x80 <= octet < 0xC0 || 0xF8 <= octet
    ensures DecodeComponent(Percent([octet]) + rest).None?
  {
    ReadsBackOctets([octet], rest, 1);
    assert [octet][..1] == [octet];
    assert (Percent([octet]) + rest)[0] == '%';
    hide ReadOctets, Percent;
  }

  /** And so are octets that are no character. */
  lemma BrokenCharacterFails(octets: seq<Byte>, rest: string)
    requires octets != [] && Announced(octets[0]) == |octets| && Utf8.Width(octets) != |octets|
    ensures DecodeComponent(Percent(octets) + rest).None?
  {
    ReadsBackOctets(octets, rest, 1);
    ReadsBackOctets(octets, rest, |octets|);
    assert octets[..|octets|] == octets;
    assert (Percent(octets) + rest)[0] == '%';
    hide ReadOctets, Percent, Utf8.Width;
  }

  // ------------------------------------------------- encodePath, decodePath

  function EncodeAll(segments: seq<string>): (r: seq<string>)
    ensures |r| == |segments|
  {
    if segments == [] then [] else [EncodeComponent(segments[0])] + EncodeAll(segments[1..])
  }

  function DecodeAll(segments: seq<string>): Option<seq<string>> {
    if segments == [] then Some([]) else
      var first, rest := DecodeComponent(segments[0]), DecodeAll(segments[1..]);
      if first.None? || rest.None? then None else Some([first.value] + rest.value)
  }

  /** `encodePath` */
  function EncodePath(path: string): string {
    if path == [] then [] else Join(EncodeAll(Split(path)))
  }

  /** `decodePath`; None stands for the URIError of a malformed escape. */
  function DecodePath(path: string): Option<string> {
    if path == [] then Some([]) else
      var segments := DecodeAll(Split(path));
      if segments.None? then None else Some(Join(segments.value))
  }

  lemma {:induction false} AllRoundTrip(segments: seq<string>)
    ensures DecodeAll(EncodeAll(segments)) == Some(segments)
    ensures SlashFree(EncodeAll(segments))
    ensures forall e :: e in EncodeAll(segments) ==> UrlSafe(e)
  {
    if segments != [] {
      hide EncodeComponent, DecodeComponent;
      AllRoundTrip(segments[1..]);
      ComponentRoundTrip(segments[0]);
      ComponentIsSafe(segments[0]);
      assert segments == [segments[0]] + segments[1..];
    }
  }

  /** Decoding undoes encoding on every path, segment by segment, with the slashes where they were. */
  lemma PathRoundTrip(path: string)
    ensures DecodePath(EncodePath(path)) == Some(path)
    ensures path != [] ==> Split(EncodePath(path)) == EncodeAll(Split(path))
    ensures forall c :: c in EncodePath(path) ==>
              'a' <= c <= 'z' || 'A' <= c <= 'Z' || '0' <= c <= '9' || c in "-_.!~*'()" || c == '%' || c == '/'
  {
    if path != [] {
      hide Split, Join, EncodeAll, DecodeAll;
      JoinSplit(path);
      AllRoundTrip(Split(path));
      SplitJoin(EncodeAll(Split(path)));
      JoinIsSafe(EncodeAll(Split(path)));
      assert Join(Split([])) == [] by { JoinSplit([]); }
      assert EncodePath(path) == [] ==> DecodeAll(Split([])) == Some(Split(path));
      assert EncodePath(path) != [];
    }
  }

  lemma {:induction false} JoinIsSafe(segments: seq<string>)
    requires forall e :: e in segments ==> UrlSafe(e)
    ensures forall c :: c in Join(segments) ==> Unescaped(c) || c == '%' || c == SLASH
  {
    if segments != [] {
      assert segments[0] in segments;
      JoinIsSafe(segments[1..]);
    }
  }

  // ------------------------------------------------- joinPath

  /** The segments `joinPath` keeps: stripped of slashes, the empty ones dropped. */
  function Kept(segments: seq<string>): seq<string> {
    if segments == [] then [] else
      var s := StripSlash(segments[0]);
      var rest := Kept(segments[1..]);
      if s == [] then rest else [s] + rest
  }

  /** `joinPath` */
  function JoinPath(segments: seq<string>): string {
    Join(Kept(segments))
  }

  predicate Bare(s: string) { s != [] && s[0] != SLASH && s[|s| - 1] != SLASH }

  lemma BareStaysBare(s: string)
    requires Bare(s)
    ensures StripSlash(s) == s
  {
    hide LStripSlash, RStripSlash;
    assert LStripSlash(s) == s;
  }

  lemma {:induction false} KeptAreBare(segments: seq<string>)
    ensures forall s :: s in Kept(segments) ==> Bare(s)
  {
    hide StripSlash;
    if segments != [] { KeptAreBare(segments[1..]); }
  }

  lemma {:induction false} KeptConcat(a: seq<string>, b: seq<string>)
    ensures Kept(a + b) == Kept(a) + Kept(b)
  {
    hide StripSlash;
    if a == [] {
      assert a + b == b;
    } else {
      KeptConcat(a[1..], b);
      assert (a + b)[0] == a[0] && (a + b)[1..] == a[1..] + b;
      var s := StripSlash(a[0]);
      var head := if s == [] then [] else [s];
      assert Kept(a) == head + Kept(a[1..]) && Kept(a + b) == head + Kept(a[1..] + b);
      hide Kept;
    }
  }

  lemma {:induction false} JoinIsBare(segments: seq<string>)
    requires segments != [] && forall s :: s in segments ==> Bare(s)
    ensures Bare(Join(segments))
  {
    assert segments[0] in segments;
    if |segments| > 1 {
      assert forall s :: s in segments[1..] ==> s in segments;
      JoinIsBare(segments[1..]);
    }
  }

  lemma {:induction false} JoinConcat(a: seq<string>, b: seq<string>)
    requires a != [] && b != []
    ensures Join(a + b) == Join(a) + [SLASH] + Join(b)
  {
    assert (a + b)[0] == a[0] && (a + b)[1..] == a[1..] + b;
    if |a| > 1 {
      JoinConcat(a[1..], b);
    } else {
      assert a[1..] + b == b;
    }
  }

  lemma JoinNests(a: seq<string>, b: seq<string>, c: seq<string>)
    requires b != []
    ensures Join(a + [Join(b)] + c) == Join(a + b + c)
  {
    assert Join([Join(b)]) == Join(b);
    hide Join;
    var one := [Join(b)];
    assert a + one + c == a + (one + c) && a + b + c == a + (b + c);
    if c == [] {
      assert one + c == one && b + c == b;
    } else {
      JoinConcat(one, c);
      JoinConcat(b, c);
    }
    if a == [] {
      assert a + (one + c) == one + c && a + (b + c) == b + c;
    } else {
      JoinConcat(a, one + c);
      JoinConcat(a, b + c);
    }
  }

  lemma KeptOfJoined(ys: seq<string>)
    ensures Kept([JoinPath(ys)]) == if Kept(ys) == [] then [] else [JoinPath(ys)]
  {
    KeptAreBare(ys);
    if Kept(ys) != [] {
      JoinIsBare(Kept(ys));
      BareStaysBare(JoinPath(ys));
    }
    var j := [JoinPath(ys)];
    assert Kept(j[1..]) == [];
  }

  /** What joining does: segments lose the slashes around them, empty ones go, the others are joined by one slash. */
  lemma JoinPathOfOne(s: string)
    ensures JoinPath([s]) == StripSlash(s)
  {
    assert Kept([s][1..]) == [];
  }

  lemma {:induction false} JoinPathOfNames(segments: seq<string>)
    requires forall s :: s in segments ==> s != [] && s[0] != '/' && s[|s| - 1] != '/'
    ensures JoinPath(segments) == Join(segments)
  {
    KeptOfBare(segments);
  }

  lemma {:induction false} KeptOfBare(segments: seq<string>)
    requires forall s :: s in segments ==> Bare(s)
    ensures Kept(segments) == segments
  {
    if segments != [] {
      assert segments[0] in segments;
      assert forall s :: s in segments[1..] ==> s in segments;
      KeptOfBare(segments[1..]);
      BareStaysBare(segments[0]);
    }
  }

  lemma {:induction false} SlashesStripAway(s: string)
    requires forall c :: c in s ==> c == '/'
    ensures LStripSlash(s) == [] && StripSlash(s) == []
  {
    if s != [] {
      assert s[0] in s;
      assert forall c :: c in s[1..] ==> c in s;
      SlashesStripAway(s[1..]);
    }
  }

  /** A segment of nothing but slashes leaves no trace. */
  lemma JoinPathSkips(before: seq<string>, s: string, after: seq<string>)
    requires forall c :: c in s ==> c == '/'
    ensures JoinPath(before + [s] + after) == JoinPath(before + after)
  {
    SlashesStripAway(s);
    assert Kept([s][1..]) == [] && Kept([s]) == [];
    hide Kept, Join, StripSlash;
    KeptConcat(before + [s], after);
    KeptConcat(before, [s]);
    KeptConcat(before, after);
    assert Kept(before) + [] == Kept(before);
  }

  /** A path joined beforehand may stand for its segments anywhere: joining is associative. */
  lemma JoinPathNests(xs: seq<string>, ys: seq<string>, zs: seq<string>)
    ensures JoinPath(xs + [JoinPath(ys)] + zs) == JoinPath(xs + ys + zs)
  {
    hide Kept, Join;
    KeptConcat(xs + [JoinPath(ys)], zs);
    KeptConcat(xs, [JoinPath(ys)]);
    KeptConcat(xs + ys, zs);
    KeptConcat(xs, ys);
    KeptOfJoined(ys);
    if Kept(ys) != [] { JoinNests(Kept(xs), Kept(ys), Kept(zs)); }
  }

  lemma JoinPathAssociates(a: string, b: string, c: string)
    ensures JoinPath([JoinPath([a, b]), c]) == JoinPath([a, JoinPath([b, c])]) == JoinPath([a, b, c])
  {
    hide JoinPath;
    JoinPathNests([], [a, b], [c]);
    JoinPathNests([a], [b, c], []);
    assert [] + [JoinPath([a, b])] + [c] == [JoinPath([a, b]), c];
    assert [] + [a, b] + [c] == [a, b, c];
    assert [a] + [JoinPath([b, c])] + [] == [a, JoinPath([b, c])];
    assert [a] + [b, c] + [] == [a, b, c];
  }

  // ------------------------------------------------- parentPath, splitCrumbs

  /** `s.lastIndexOf("/")` */
  function LastSlash(s: string): (i: int)
    ensures -1 <= i < |s|
  {
    if s == [] then -1
    else if s[|s| - 1] == SLASH then |s| - 1
    else LastSlash(s[..|s| - 1])
  }

  /** `parentPath` */
  function ParentPath(path: string): string {
    var trimmed := RStripSlash(path);
    var i := LastSlash(trimmed);
    if i == -1 then [] else trimmed[..i]
  }

  function NonEmpty(segments: seq<string>): seq<string> {
    if segments == [] then []
    else if segments[0] == [] then NonEmpty(segments[1..])
    else [segments[0]] + NonEmpty(segments[1..])
  }

  datatype Crumb = Crumb(name: string, path: string)

  /** `splitCrumbs` */
  function SplitCrumbs(path: string): seq<Crumb> {
    if path == [] then [] else CrumbsOf(NonEmpty(Split(path)))
  }

  function CrumbsOf(segments: seq<string>): seq<Crumb> {
    seq(|segments|, i requires 0 <= i < |segments| => Crumb(segments[i], Join(segments[..i + 1])))
  }

  /** Names of folders and files: not empty, and without a slash. */
  predicate Names(segments: seq<string>) {
    forall s :: s in segments ==> s != [] && SLASH !in s
  }

  lemma {:induction false} NonEmptyAreNames(segments: seq<string>)
    requires SlashFree(segments)
    ensures Names(NonEmpty(segments))
    ensures Names(segments) ==> NonEmpty(segments) == segments
  {
    if segments != [] {
      assert segments[0] in segments;
      assert forall s :: s in segments[1..] ==> s in segments;
      NonEmptyAreNames(segments[1..]);
      assert segments == [segments[0]] + segments[1..];
    }
  }

  lemma {:induction false} LastSlashAt(p: string, x: string)
    requires SLASH !in x
    ensures LastSlash(p + [SLASH] + x) == |p|
  {
    var s := p + [SLASH] + x;
    if x == [] {
      assert s[|s| - 1] == SLASH;
    } else {
      assert s[|s| - 1] == x[|x| - 1] && x[|x| - 1] in x;
      assert s[..|s| - 1] == p + [SLASH] + x[..|x| - 1];
      LastSlashAt(p, x[..|x| - 1]);
    }
  }

  lemma {:induction false} NoLastSlash(x: string)
    requires SLASH !in x
    ensures LastSlash(x) == -1
  {
    if x != [] {
      assert x[|x| - 1] in x;
      NoLastSlash(x[..|x| - 1]);
    }
  }

  lemma JoinLast(parents: seq<string>, name: string)
    ensures Join(parents + [name]) == if parents == [] then name else Join(parents) + [SLASH] + name
  {
    if parents == [] { assert parents + [name] == [name]; } else { JoinConcat(parents, [name]); }
  }

  lemma ParentOfChild(parents: seq<string>, name: string)
    requires name != [] && SLASH !in name
    ensures ParentPath(Join(parents + [name])) == Join(parents)
  {
    var path := Join(parents + [name]);
    JoinLast(parents, name);
    if parents == [] { NoLastSlash(name); } else { LastSlashAt(Join(parents), name); }
    assert path[|path| - 1] == name[|name| - 1] && name[|name| - 1] in name;
    hide RStripSlash, Join, LastSlash;
    assert RStripSlash(path) == path;
  }

  /** The breadcrumbs of a path spell it out: one for each name, with the path up to it; empty segments give none. */
  lemma CrumbsSpellThePath(names: seq<string>, i: nat)
    requires Names(names) && i < |names|
    ensures |SplitCrumbs(Join(names))| == |names|
    ensures SplitCrumbs(Join(names))[i] == Crumb(names[i], Join(names[..i + 1]))
  {
    SplitJoin(names);
    NonEmptyAreNames(names);
    JoinOfNames(names);
    hide Split, NonEmpty, Join;
  }

  lemma CrumbsSkipEmptySegments(path: string)
    ensures SplitCrumbs(path) == SplitCrumbs(Join(NonEmpty(Split(path))))
    ensures forall s :: s in NonEmpty(Split(path)) <==> s != [] && s in Split(path)
  {
    JoinSplit(path);
    NonEmptyAreNames(Split(path));
    NonEmptyMembers(Split(path));
    var names := NonEmpty(Split(path));
    assert NonEmpty([[]][1..]) == [];
    if path == [] { assert Split(path) == [[]]; }
    if names != [] {
      SplitJoin(names);
      NonEmptyAreNames(names);
      JoinOfNames(names);
    }
    hide Split, NonEmpty;
  }

  lemma {:induction false} NonEmptyMembers(segments: seq<string>)
    ensures forall s :: s in NonEmpty(segments) <==> s != [] && s in segments
  {
    if segments != [] {
      NonEmptyMembers(segments[1..]);
      assert segments == [segments[0]] + segments[1..];
    }
  }

  /** Slashes at the end of a path do not change its parent. */
  lemma ParentIgnoresTrailingSlash(path: string)
    ensures ParentPath(path + [SLASH]) == ParentPath(path)
  {
    assert (path + [SLASH])[..|path|] == path;
    assert RStripSlash(path + [SLASH]) == RStripSlash(path);
  }

  /** One step up from a breadcrumb is the breadcrumb before it, and from the first one the root. */
  lemma ParentOfCrumb(path: string, i: nat)
    requires i < |SplitCrumbs(path)|
    ensures ParentPath(SplitCrumbs(path)[i].path) == if i == 0 then [] else SplitCrumbs(path)[i - 1].path
  {
    JoinSplit(path);
    NonEmptyAreNames(Split(path));
    var segments := NonEmpty(Split(path));
    hide Split, NonEmpty, Join, ParentPath;
    assert segments[..i + 1] == segments[..i] + [segments[i]];
    assert segments[i] in segments;
    ParentOfChild(segments[..i], segments[i]);
    if i == 0 { assert Join(segments[..i]) == [] by { JoinNothing(); assert segments[..i] == []; } }
  }

  lemma JoinNothing()
    ensures Join([]) == []
  {
  }

  /** Following a breadcrumb keeps the trail up to it. */
  lemma CrumbKeepsTheTrail(path: string, i: nat)
    requires i < |SplitCrumbs(path)|
    ensures SplitCrumbs(SplitCrumbs(path)[i].path) == SplitCrumbs(path)[..i + 1]
  {
    JoinSplit(path);
    NonEmptyAreNames(Split(path));
    var segments := NonEmpty(Split(path));
    var trail := segments[..i + 1];
    assert forall s :: s in trail ==> s in segments;
    SplitJoin(trail);
    NonEmptyAreNames(trail);
    JoinOfNames(trail);
    hide Split, NonEmpty, Join;
    CrumbsOfTrail(segments, i + 1);
  }

  lemma CrumbsOfTrail(segments: seq<string>, n: nat)
    requires n <= |segments|
    ensures CrumbsOf(segments[..n]) == CrumbsOf(segments)[..n]
  {
    hide Join;
    var trail := segments[..n];
    forall j | 0 <= j < n ensures CrumbsOf(trail)[j] == CrumbsOf(segments)[j] {
      assert trail[..j + 1] == segments[..j + 1];
    }
  }

  lemma JoinOfNames(segments: seq<string>)
    requires segments != [] && Names(segments)
    ensures Join(segments) != []
  {
    assert segments[0] in segments;
  }

  // ------------------------------------------------- clampPathToEntry

  /** `clampPathToEntry` */
  function ClampPathToEntry(path: string, entryPath: string): string {
    if entryPath == [] then path
    else if path == [] then entryPath
    else if path == entryPath || entryPath + [SLASH] <= path then path
    else entryPath
  }

  predicate Inside(path: string, entryPath: string) {
    entryPath == [] || path == entryPath || entryPath + [SLASH] <= path
  }

  /** A path inside the entry folder is left alone; any other becomes the entry folder. */
  lemma ClampIsExact(path: string, entryPath: string)
    ensures entryPath == [] || path == entryPath || entryPath + [SLASH] <= path ==>
              ClampPathToEntry(path, entryPath) == path
    ensures !(entryPath == [] || path == entryPath || entryPath + [SLASH] <= path) ==>
              ClampPathToEntry(path, entryPath) == entryPath
  {
  }

  /** Going up from inside a role's entry folder stays inside, and is the plain parent except at the entry itself. */
  lemma UpStaysInside(parents: seq<string>, name: string, entry: seq<string>)
    requires name != [] && SLASH !in name && Names(parents) && Names(entry) && entry != []
    requires Inside(Join(parents + [name]), Join(entry))
    ensures var up := ClampPathToEntry(ParentPath(Join(parents + [name])), Join(entry));
            up == if Join(parents + [name]) == Join(entry) then Join(entry) else Join(parents)
  {
    var path, e := Join(parents + [name]), Join(entry);
    ParentOfChild(parents, name);
    JoinOfNames(entry);
    if path == e {
      ShorterThanChild(parents, name);
    } else {
      ParentInside(parents, name, e);
    }
  }

  lemma ShorterThanChild(parents: seq<string>, name: string)
    requires name != []
    ensures |Join(parents)| < |Join(parents + [name])|
  {
    JoinLast(parents, name);
  }

  lemma NameHoldsNoSlash(parents: seq<string>, name: string, k: nat)
    requires SLASH !in name && k < |Join(parents + [name])| && Join(parents + [name])[k] == SLASH
    ensures parents != [] && k <= |Join(parents)|
    ensures Join(parents + [name]) == Join(parents) + [SLASH] + name
  {
    var path := Join(parents + [name]);
    JoinLast(parents, name);
    hide Join;
    var n := |path| - |name|;
    assert forall j :: n <= j < |path| ==> path[j] == name[j - n] && name[j - n] in name;
  }

  lemma ParentInside(parents: seq<string>, name: string, e: string)
    requires SLASH !in name && e != [] && e + [SLASH] <= Join(parents + [name])
    ensures Join(parents) == e || e + [SLASH] <= Join(parents)
    ensures Join(parents) != []
  {
    var path, p := Join(parents + [name]), Join(parents);
    hide Join;
    assert path[|e|] == SLASH;
    NameHoldsNoSlash(parents, name, |e|);
    assert e == path[..|e|] == p[..|e|];
    assert |e| < |p| ==> p[|e|] == path[|e|];
  }
}
