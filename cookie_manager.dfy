/**
  The cookie codec (src/cookie/manager.rs): the `Secure`/`SameSite`
  attribute, the builder of a cookie manager, the `Set-Cookie` header value
  it writes (the syntax of section 4.1.1 of RFC 6265, with `SameSite=None`
  from the RFC 6265bis draft), and the lookup of a cookie's value in a
  `Cookie` header (the `;`-separated pairs of section 4.2.1 of RFC 6265).
 */
module CookieManager {
  import opened Wrappers
  import opened Numeric

  predicate IsPrefix(p: string, s: string) {
    |p| <= |s| && s[..|p|] == p
  }

  predicate IsSuffix(p: string, s: string) {
    |p| <= |s| && s[|s| - |p|..] == p
  }

  datatype SameSite = Strict | Lax

  function SameSiteText(ss: SameSite): (s: string)
    ensures |s| >= 3 && s[0] != ' '
  {
    match ss
    case Lax => "Lax"
    case Strict => "Strict"
  }

  /** The `SameSite` part of the attribute, seen on its own. */
  datatype Site = Unset | Only(ss: SameSite) | NoneSite

  /** The combined attribute; the source's unit `Secure` marker is implicit in the variants that carry it. */
  datatype SecureSameSite = Both(both: SameSite) | SameSite(site: SameSite) | SameSiteNone | Secure
  {
    predicate HasSecure() {
      !SameSite?
    }

    function SiteOf(): Site {
      match this
      case Both(ss) => Only(ss)
      case SameSite(ss) => Only(ss)
      case SameSiteNone => NoneSite
      case Secure => Unset
    }

    /** `SecureSameSite::secure`: adds `Secure`, keeps the `SameSite` part. */
    function WithSecure(): (r: SecureSameSite)
      ensures r.HasSecure() && r.SiteOf() == SiteOf()
    {
      match this
      case SameSite(ss) => Both(ss)
      case _ => this
    }

    /** `SecureSameSite::same_site`: sets the `SameSite` part, keeps `Secure` if present. */
    function WithSameSite(ss: SameSite): (r: SecureSameSite)
      ensures r.SiteOf() == Only(ss) && r.HasSecure() == HasSecure()
    {
      match this
      case SameSite(_) => SameSite(ss)
      case _ => Both(ss)
    }

    /** `Display`: the attribute text as it appears in the header. */
    function Text(): (s: string)
      ensures SiteOf() == Unset ==> s == "Secure"
      ensures SiteOf() != Unset ==>
                s == "SameSite=" + (if SiteOf().Only? then SameSiteText(SiteOf().ss) else "None")
                     + (if HasSecure() then "; Secure" else "")
    {
      match this
      case Both(ss) => "SameSite=" + SameSiteText(ss) + "; Secure"
      case SameSite(ss) => "SameSite=" + SameSiteText(ss)
      case SameSiteNone => "SameSite=None; Secure"
      case Secure => "Secure"
    }
  }

  /** The attribute is determined by whether it has `Secure` and by its `SameSite` part. */
  lemma SecureSameSiteDetermined(a: SecureSameSite, b: SecureSameSite)
    requires a.HasSecure() == b.HasSecure() && a.SiteOf() == b.SiteOf()
    ensures a == b
  {
  }

  /** Adding `Secure` twice is adding it once. */
  lemma WithSecureIdempotent(a: SecureSameSite)
    ensures a.WithSecure().WithSecure() == a.WithSecure()
  {
    SecureSameSiteDetermined(a.WithSecure().WithSecure(), a.WithSecure());
  }

  /** `SecureSameSite::secure_option`: `Secure` alone when nothing was set. */
  function SecureOption(o: Option<SecureSameSite>): (r: SecureSameSite)
    ensures r.HasSecure()
    ensures r.SiteOf() == if o.None? then Unset else o.value.SiteOf()
  {
    match o
    case None => Secure
    case Some(a) => a.WithSecure()
  }

  /** `SecureSameSite::same_site_option`: `SameSite` alone when nothing was set. */
  function SameSiteOption(o: Option<SecureSameSite>, ss: SameSite): (r: SecureSameSite)
    ensures r.SiteOf() == Only(ss)
    ensures r.HasSecure() <==> o.Some? && o.value.HasSecure()
  {
    match o
    case None => SameSite(ss)
    case Some(a) => a.WithSameSite(ss)
  }

  /** chrono's `TimeDelta`: whole seconds and a non-negative nanosecond part. */
  type Nanos = n: int | 0 <= n < 1_000_000_000

  datatype TimeDelta = TimeDelta(secs: int, nanos: Nanos)

  function TotalNanos(d: TimeDelta): int {
    d.secs * 1_000_000_000 + d.nanos
  }

  /** `TimeDelta::num_seconds`: the whole seconds, truncated toward zero. */
  function NumSeconds(d: TimeDelta): (s: int)
    ensures TotalNanos(d) >= 0 ==> s * 1_000_000_000 <= TotalNanos(d) < (s + 1) * 1_000_000_000
    ensures TotalNanos(d) < 0 ==> (s - 1) * 1_000_000_000 < TotalNanos(d) <= s * 1_000_000_000
  {
    if d.secs < 0 && d.nanos > 0 then d.secs + 1 else d.secs
  }

  /** A lifetime; an expiry date is kept as its formatted text (`%a, %d %b %Y %H:%M:%S GMT`). */
  datatype Lifetime = Expires(date: string) | MaxAge(age: TimeDelta)
  {
    /** `Display`. */
    function Text(): (s: string)
      ensures Expires? ==> IsPrefix("Expires=", s) && s[8..] == date
      ensures MaxAge? ==> IsPrefix("Max-Age=", s)
    {
      match this
      case Expires(e) => "Expires=" + e
      case MaxAge(d) => "Max-Age=" + IntToString(NumSeconds(d))
    }
  }

  /** `Max-Age` carries the whole seconds, with a `-` exactly when they are negative and no leading zero. */
  lemma MaxAgeText(d: TimeDelta)
    ensures var t := MaxAge(d).Text()[8..];
            && |t| >= 1
            && (t[0] == '-' <==> NumSeconds(d) < 0)
            && (forall i :: 0 <= i < |IntDigits(t)| ==> IsDecimalDigit(IntDigits(t)[i]))
            && (|IntDigits(t)| > 1 ==> IntDigits(t)[0] != '0')
            && DecimalValue(IntDigits(t)) == Abs(NumSeconds(d))
  {
    assert MaxAge(d).Text()[8..] == IntToString(NumSeconds(d));
  }

  /** The state a built manager holds (`Inner`); the source's unit `HttpOnly` marker is a boolean here. */
  datatype Manager = Manager(
    name: string,
    path: Option<string>,
    secureSameSite: Option<SecureSameSite>,
    httpOnly: bool,
    domain: Option<string>,
    lifetime: Option<Lifetime>)

  /**
    `Builder<Name>`: `name` is `None` while the source's type parameter is
    `()`, and `Some` once `name` was called.
   */
  datatype Builder = Builder(
    name: Option<string>,
    path: Option<string>,
    secureSameSite: Option<SecureSameSite>,
    httpOnly: bool,
    domain: Option<string>,
    lifetime: Option<Lifetime>)
  {
    /** `name`: sets its field and leaves the others as they were. */
    function Name(n: string): (b: Builder)
      ensures b.name == Some(n) && b.(name := name) == this
    {
      this.(name := Some(n))
    }

    /** `path`: sets its field and leaves the others as they were. */
    function Path(p: string): (b: Builder)
      ensures b.path == Some(p) && b.(path := path) == this
    {
      this.(path := Some(p))
    }

    /** `secure`: adds `Secure`, keeps any `SameSite` part, and leaves the other fields. */
    function Secure(): (b: Builder)
      ensures b.secureSameSite.Some? && b.secureSameSite.value.HasSecure()
      ensures b.secureSameSite.value.SiteOf() == if secureSameSite.None? then Unset else secureSameSite.value.SiteOf()
      ensures b.(secureSameSite := secureSameSite) == this
    {
      this.(secureSameSite := Some(SecureOption(secureSameSite)))
    }

    /** `same_site_none`: `SameSite=None` with `Secure`, whatever was set before. */
    function SameSiteNone(): (b: Builder)
      ensures b.secureSameSite.Some? && b.secureSameSite.value.HasSecure()
      ensures b.secureSameSite.value.SiteOf() == NoneSite
      ensures b.(secureSameSite := secureSameSite) == this
    {
      this.(secureSameSite := Some(SecureSameSite.SameSiteNone))
    }

    /** `same_site_strict`: sets the `SameSite` part, keeps whether `Secure` was set, and leaves the other fields. */
    function SameSiteStrict(): (b: Builder)
      ensures b.secureSameSite.Some? && b.secureSameSite.value.SiteOf() == Only(Strict)
      ensures b.secureSameSite.value.HasSecure() <==> secureSameSite.Some? && secureSameSite.value.HasSecure()
      ensures b.(secureSameSite := secureSameSite) == this
    {
      this.(secureSameSite := Some(SameSiteOption(secureSameSite, Strict)))
    }

    /** `same_site_lax`: sets the `SameSite` part, keeps whether `Secure` was set, and leaves the other fields. */
    function SameSiteLax(): (b: Builder)
      ensures b.secureSameSite.Some? && b.secureSameSite.value.SiteOf() == Only(Lax)
      ensures b.secureSameSite.value.HasSecure() <==> secureSameSite.Some? && secureSameSite.value.HasSecure()
      ensures b.(secureSameSite := secureSameSite) == this
    {
      this.(secureSameSite := Some(SameSiteOption(secureSameSite, Lax)))
    }

    /** `http_only`: sets its field and leaves the others as they were. */
    function HttpOnly(): (b: Builder)
      ensures b.httpOnly == true && b.(httpOnly := httpOnly) == this
    {
      this.(httpOnly := true)
    }

    /** `domain`: sets its field and leaves the others as they were. */
    function Domain(d: string): (b: Builder)
      ensures b.domain == Some(d) && b.(domain := domain) == this
    {
      this.(domain := Some(d))
    }

    /** `expires`: sets its field and leaves the others as they were. */
    function Expires(date: string): (b: Builder)
      ensures b.lifetime == Some(Lifetime.Expires(date)) && b.(lifetime := lifetime) == this
    {
      this.(lifetime := Some(Lifetime.Expires(date)))
    }

    /** `max_age`: shares the lifetime with `expires`: sets its field and leaves the others as they were. */
    function MaxAge(age: TimeDelta): (b: Builder)
      ensures b.lifetime == Some(Lifetime.MaxAge(age)) && b.(lifetime := lifetime) == this
    {
      this.(lifetime := Some(Lifetime.MaxAge(age)))
    }

    /** `Builder<String>::build`: available only once a name is set. */
    function Build(): (m: Manager)
      requires name.Some?
      ensures m.name == name.value && m.path == path && m.secureSameSite == secureSameSite
      ensures m.httpOnly == httpOnly && m.domain == domain && m.lifetime == lifetime
    {
      Manager(name.value, path, secureSameSite, httpOnly, domain, lifetime)
    }
  }

  /** `Manager::builder`: nothing set. */
  function NewBuilder(): (b: Builder)
    ensures b.name.None? && b.path.None? && b.secureSameSite.None?
    ensures !b.httpOnly && b.domain.None? && b.lifetime.None?
  {
    Builder(None, None, None, false, None, None)
  }

  /** One call on the builder. */
  datatype Call =
    | SetName(n: string) | SetPath(p: string) | MakeSecure | MakeSameSiteNone | MakeSameSiteStrict
    | MakeSameSiteLax | MakeHttpOnly | SetDomain(d: string) | SetExpires(date: string) | SetMaxAge(age: TimeDelta)

  function Apply(b: Builder, c: Call): Builder {
    match c
    case SetName(n) => b.Name(n)
    case SetPath(p) => b.Path(p)
    case MakeSecure => b.Secure()
    case MakeSameSiteNone => b.SameSiteNone()
    case MakeSameSiteStrict => b.SameSiteStrict()
    case MakeSameSiteLax => b.SameSiteLax()
    case MakeHttpOnly => b.HttpOnly()
    case SetDomain(d) => b.Domain(d)
    case SetExpires(date) => b.Expires(date)
    case SetMaxAge(age) => b.MaxAge(age)
  }

  /** A chain of builder calls, applied left to right. */
  function ApplyAll(b: Builder, cs: seq<Call>): Builder
    decreases |cs|
  {
    if cs == [] then b else Apply(ApplyAll(b, cs[..|cs| - 1]), cs[|cs| - 1])
  }

  /** The field of the builder a call writes; `expires` and `max_age` share the lifetime. */
  datatype Slot = NameSlot | PathSlot | SecureSameSiteSlot | HttpOnlySlot | DomainSlot | LifetimeSlot

  function SlotOf(c: Call): Slot {
    match c
    case SetName(_) => NameSlot
    case SetPath(_) => PathSlot
    case MakeSecure | MakeSameSiteNone | MakeSameSiteStrict | MakeSameSiteLax => SecureSameSiteSlot
    case MakeHttpOnly => HttpOnlySlot
    case SetDomain(_) => DomainSlot
    case SetExpires(_) | SetMaxAge(_) => LifetimeSlot
  }

  /** Whether the builder's attribute carries `Secure`. */
  predicate Secured(b: Builder) {
    b.secureSameSite.Some? && b.secureSameSite.value.HasSecure()
  }

  /** A call writes its own field and no other. */
  lemma CallWritesOwnSlot(b: Builder, c: Call)
    ensures SlotOf(c) != NameSlot ==> Apply(b, c).name == b.name
    ensures SlotOf(c) != PathSlot ==> Apply(b, c).path == b.path
    ensures SlotOf(c) != SecureSameSiteSlot ==> Apply(b, c).secureSameSite == b.secureSameSite
    ensures SlotOf(c) != HttpOnlySlot ==> Apply(b, c).httpOnly == b.httpOnly
    ensures SlotOf(c) != DomainSlot ==> Apply(b, c).domain == b.domain
    ensures SlotOf(c) != LifetimeSlot ==> Apply(b, c).lifetime == b.lifetime
    ensures Apply(b, c) != b ==> Apply(b, c) == b.(name := Apply(b, c).name)
                                 || Apply(b, c) == b.(path := Apply(b, c).path)
                                 || Apply(b, c) == b.(secureSameSite := Apply(b, c).secureSameSite)
                                 || Apply(b, c) == b.(httpOnly := Apply(b, c).httpOnly)
                                 || Apply(b, c) == b.(domain := Apply(b, c).domain)
                                 || Apply(b, c) == b.(lifetime := Apply(b, c).lifetime)
  {
  }

  /** Calls on different fields can be made in either order. */
  lemma CallsOnDifferentSlotsCommute(b: Builder, c1: Call, c2: Call)
    requires SlotOf(c1) != SlotOf(c2)
    ensures Apply(Apply(b, c1), c2) == Apply(Apply(b, c2), c1)
  {
  }

  /**
    A later call on the same field overrides an earlier one, except that
    `same_site_strict`/`same_site_lax` keep a `Secure` set before them and
    `secure` keeps the `SameSite` part set before it.
   */
  lemma LaterCallOverrides(b: Builder, c1: Call, c2: Call)
    requires SlotOf(c1) == SlotOf(c2)
    requires c2 != MakeSecure && c2 != MakeSameSiteStrict && c2 != MakeSameSiteLax
    ensures Apply(Apply(b, c1), c2) == Apply(b, c2)
  {
  }

  /** `same_site_strict`/`same_site_lax` override the `SameSite` part only. */
  lemma SameSiteKeepsSecure(b: Builder, c: Call)
    requires c == MakeSameSiteStrict || c == MakeSameSiteLax
    ensures Apply(b, c).secureSameSite.Some?
    ensures Apply(b, c).secureSameSite.value.SiteOf() == Only(if c == MakeSameSiteStrict then Strict else Lax)
    ensures Secured(Apply(b, c)) <==> Secured(b)
  {
  }

  /** The builder's `secure` is idempotent. */
  lemma BuilderSecureIdempotent(b: Builder)
    ensures b.Secure().Secure() == b.Secure()
  {
    var s := b.Secure();
    SecureSameSiteDetermined(s.Secure().secureSameSite.value, s.secureSameSite.value);
  }

  /** Once `Secure` is set, no later builder call removes it. */
  lemma {:induction false} SecureIsKept(b: Builder, cs: seq<Call>)
    requires Secured(b)
    ensures Secured(ApplyAll(b, cs))
    decreases |cs|
  {
    if cs != [] {
      SecureIsKept(b, cs[..|cs| - 1]);
    }
  }

  // ----- the `Set-Cookie` header value -----

  /** `; <attribute>` when the attribute is set, nothing otherwise. */
  function Attr(o: Option<string>): (s: string)
    ensures o.None? <==> s == []
    ensures o.Some? ==> s == "; " + o.value
  {
    if o.None? then [] else "; " + o.value
  }

  /** The text of each optional attribute, when it is set. */
  function PathAttr(m: Manager): Option<string> {
    if m.path.Some? then Some("Path=" + m.path.value) else None
  }

  function SiteAttr(m: Manager): Option<string> {
    if m.secureSameSite.Some? then Some(m.secureSameSite.value.Text()) else None
  }

  function HttpOnlyAttr(m: Manager): Option<string> {
    if m.httpOnly then Some("HttpOnly") else None
  }

  function DomainAttr(m: Manager): Option<string> {
    if m.domain.Some? then Some("Domain=" + m.domain.value) else None
  }

  function LifetimeAttr(m: Manager): Option<string> {
    if m.lifetime.Some? then Some(m.lifetime.value.Text()) else None
  }

  /** The attributes the header value writes, in their fixed order, each only if set. */
  function Attributes(m: Manager): string {
    Attr(PathAttr(m)) + Attr(SiteAttr(m)) + Attr(HttpOnlyAttr(m)) + Attr(DomainAttr(m)) + Attr(LifetimeAttr(m))
  }

  /** `ToHeaderValue`'s `Display`: `name=value` then the attributes; the value is not escaped. */
  function HeaderValue(m: Manager, value: string): (s: string)
    ensures IsPrefix(m.name + "=" + value, s)
    ensures |s| == |m.name| + 1 + |value| || s[|m.name| + 1 + |value|] == ';'
  {
    m.name + "=" + value + Attributes(m)
  }

  // ----- reading a `Cookie` header -----

  /** `str::split(";")`: the pieces between separators, empty pieces included. */
  function Split(s: string): (ps: seq<string>)
    ensures |ps| >= 1
    ensures forall i :: 0 <= i < |ps| ==> ';' !in ps[i]
    decreases |s|
  {
    if s == [] then [[]]
    else
      var rest := Split(s[1..]);
      if s[0] == ';' then [[]] + rest else [[s[0]] + rest[0]] + rest[1..]
  }

  /** The pieces joined back with `;`. */
  function Join(ps: seq<string>): string
    requires |ps| >= 1
    decreases |ps|
  {
    if |ps| == 1 then ps[0] else ps[0] + ";" + Join(ps[1..])
  }

  /** Joining a piece in front of more pieces puts one separator between them. */
  lemma JoinCons(p: string, ps: seq<string>)
    ensures Join([p] + ps) == if ps == [] then p else p + ";" + Join(ps)
  {
    if ps != [] {
      assert ([p] + ps)[1..] == ps;
    }
  }

  /** Putting a character in front of the first piece puts it in front of the joined text. */
  lemma JoinHead(c: char, p: string, t: seq<string>)
    ensures Join([[c] + p] + t) == [c] + Join([p] + t)
  {
    JoinCons([c] + p, t);
    JoinCons(p, t);
    if t != [] {
      var j := Join(t);
      assert ([c] + p) + ";" + j == [c] + (p + ";" + j);
    }
  }

  /** An empty first piece in front of more pieces joins to a separator in front. */
  lemma JoinEmptyHead(ps: seq<string>)
    requires |ps| >= 1
    ensures Join([[]] + ps) == [';'] + Join(ps)
  {
    JoinCons([], ps);
  }

  /** Splitting loses nothing: joining the pieces gives the text back. */
  lemma {:induction false} SplitJoin(s: string)
    ensures Join(Split(s)) == s
    decreases |s|
  {
    if s != [] {
      var rest := Split(s[1..]);
      SplitJoin(s[1..]);
      if s[0] == ';' {
        JoinEmptyHead(rest);
      } else {
        JoinHead(s[0], rest[0], rest[1..]);
        assert [rest[0]] + rest[1..] == rest;
      }
      assert s == [s[0]] + s[1..];
    }
  }

  /** Text with no separator is one piece, and a separator splits the text in two. */
  lemma {:induction false} SplitAtSeparator(a: string, b: string)
    requires ';' !in a
    ensures Split(a) == [a]
    ensures Split(a + ";" + b) == [a] + Split(b)
    decreases |a|
  {
    if a != [] {
      assert a == [a[0]] + a[1..];
      SplitAtSeparator(a[1..], b);
      assert (a + ";" + b)[1..] == a[1..] + ";" + b;
    } else {
      assert a + ";" + b == [';'] + b;
    }
  }

  /** `char::is_whitespace`: the Unicode `White_Space` property. */
  predicate IsWhitespace(c: char) {
    ('\U{0009}' <= c <= '\U{000D}') || c == '\U{0020}' || c == '\U{0085}' || c == '\U{00A0}'
    || c == '\U{1680}' || ('\U{2000}' <= c <= '\U{200A}') || c == '\U{2028}' || c == '\U{2029}'
    || c == '\U{202F}' || c == '\U{205F}' || c == '\U{3000}'
  }

  /** `str::trim_start`. */
  function TrimStart(s: string): (r: string)
    ensures |r| <= |s| && r == s[|s| - |r|..]
    ensures r == [] || !IsWhitespace(r[0])
    ensures forall i :: 0 <= i < |s| - |r| ==> IsWhitespace(s[i])
    decreases |s|
  {
    if s != [] && IsWhitespace(s[0]) then TrimStart(s[1..]) else s
  }

  /** `str::trim_end`. */
  function TrimEnd(s: string): (r: string)
    ensures |r| <= |s| && r == s[..|r|]
    ensures r == [] || !IsWhitespace(r[|r| - 1])
    ensures forall i :: |r| <= i < |s| ==> IsWhitespace(s[i])
    decreases |s|
  {
    if s != [] && IsWhitespace(s[|s| - 1]) then TrimEnd(s[..|s| - 1]) else s
  }

  /** `r` is `s` from index `i` on, with only whitespace cut off before and after. */
  predicate TrimmedAt(s: string, r: string, i: int) {
    0 <= i <= |s| - |r| && r == s[i..i + |r|]
    && (forall k :: 0 <= k < i ==> IsWhitespace(s[k]))
    && (forall k :: i + |r| <= k < |s| ==> IsWhitespace(s[k]))
  }

  /** Where `trim_start` after `trim_end` cuts the text. */
  lemma TrimmedWhere(s: string)
    ensures TrimmedAt(s, TrimStart(TrimEnd(s)), |TrimEnd(s)| - |TrimStart(TrimEnd(s))|)
  {
    var t := TrimEnd(s);
    var r := TrimStart(t);
    var i := |t| - |r|;
    assert r == s[i..i + |r|];
    forall k | 0 <= k < i
      ensures IsWhitespace(s[k])
    {
      assert s[k] == t[k];
    }
  }

  /** `str::trim`. */
  function Trim(s: string): (r: string)
    ensures r == [] || (!IsWhitespace(r[0]) && !IsWhitespace(r[|r| - 1]))
    ensures exists i :: TrimmedAt(s, r, i)
  {
    TrimmedWhere(s);
    TrimStart(TrimEnd(s))
  }

  /** Text that neither starts nor ends with whitespace is its own trim. */
  lemma TrimUnchanged(s: string)
    requires s == [] || (!IsWhitespace(s[0]) && !IsWhitespace(s[|s| - 1]))
    ensures Trim(s) == s
  {
  }

  /** `str::split_once('=')`: the text before and after the first `=`. */
  function SplitOnce(s: string): (r: Option<(string, string)>)
    ensures r.None? <==> '=' !in s
    ensures r.Some? ==> r.value.0 + "=" + r.value.1 == s
    ensures r.Some? ==> '=' !in r.value.0
    decreases |s|
  {
    if s == [] then None
    else if s[0] == '=' then Some(([], s[1..]))
    else
      match SplitOnce(s[1..])
      case None => None
      case Some(kv) => Some(([s[0]] + kv.0, kv.1))
  }

  /** A key without `=` before an `=` is where `split_once` splits. */
  lemma {:induction false} SplitOnceAt(k: string, v: string)
    requires '=' !in k
    ensures SplitOnce(k + "=" + v) == Some((k, v))
    decreases |k|
  {
    if k != [] {
      assert k == [k[0]] + k[1..];
      SplitOnceAt(k[1..], v);
      assert (k + "=" + v)[1..] == k[1..] + "=" + v;
    }
  }

  /** `split_once` yields the key `name` exactly when the text starts with `name=` and `name` has no `=`. */
  lemma KeyOfSplit(t: string, name: string)
    ensures SplitOnce(t).Some? && SplitOnce(t).value.0 == name <==> '=' !in name && IsPrefix(name + "=", t)
  {
    if '=' !in name && IsPrefix(name + "=", t) {
      assert t == name + "=" + t[|name| + 1..];
      SplitOnceAt(name, t[|name| + 1..]);
    }
  }

  /** Whether a trimmed item is `name=v`, and with which `v`. */
  function ItemValue(item: string, name: string): (r: Option<string>)
    ensures r.Some? <==> '=' !in name && IsPrefix(name + "=", Trim(item))
    ensures r.Some? ==> Trim(item) == name + "=" + r.value
  {
    KeyOfSplit(Trim(item), name);
    match SplitOnce(Trim(item))
    case Some(kv) => if kv.0 == name then Some(kv.1) else None
    case None => None
  }

  /** Item `i` is `name=…` and no item before it is. */
  predicate IsFirstMatch(items: seq<string>, name: string, i: int) {
    0 <= i < |items| && ItemValue(items[i], name).Some?
    && forall j :: 0 <= j < i ==> ItemValue(items[j], name).None?
  }

  /** `find_map` over the items: the value of the first item that is `name=…`. */
  function FindValue(items: seq<string>, name: string): (r: Option<string>)
    ensures r.Some? <==> exists i :: 0 <= i < |items| && ItemValue(items[i], name).Some?
    decreases |items|
  {
    if items == [] then None
    else if ItemValue(items[0], name).Some? then ItemValue(items[0], name)
    else FindValue(items[1..], name)
  }

  /** A first match after a non-matching head is a first match one position later. */
  lemma FirstMatchShift(items: seq<string>, name: string, i: nat)
    requires items != [] && ItemValue(items[0], name).None?
    requires IsFirstMatch(items[1..], name, i)
    ensures IsFirstMatch(items, name, i + 1) && items[i + 1] == items[1..][i]
  {
    forall j | 0 <= j < i + 1
      ensures ItemValue(items[j], name).None?
    {
      if j > 0 {
        assert items[j] == items[1..][j - 1];
      }
    }
  }

  /** No match after a non-matching head is no match at all. */
  lemma NoMatchShift(items: seq<string>, name: string)
    requires items != [] && ItemValue(items[0], name).None?
    requires forall i :: 0 <= i < |items[1..]| ==> ItemValue(items[1..][i], name).None?
    ensures forall i :: 0 <= i < |items| ==> ItemValue(items[i], name).None?
  {
    AllFromHead(items, (item: string) => ItemValue(item, name).None?);
  }

  lemma AllFromHead<T>(xs: seq<T>, p: T -> bool)
    requires xs != [] && p(xs[0])
    requires forall i :: 0 <= i < |xs[1..]| ==> p(xs[1..][i])
    ensures forall i :: 0 <= i < |xs| ==> p(xs[i])
  {
    forall i | 0 < i < |xs|
      ensures p(xs[i])
    {
      assert xs[i] == xs[1..][i - 1];
    }
  }

  /** `find_map` finds the first matching item, and finds nothing only when no item matches. */
  lemma {:induction false} FindValueFirstMatch(items: seq<string>, name: string)
    ensures FindValue(items, name).Some? ==>
              exists i :: IsFirstMatch(items, name, i) && ItemValue(items[i], name) == FindValue(items, name)
    ensures FindValue(items, name).None? ==> forall i :: 0 <= i < |items| ==> ItemValue(items[i], name).None?
    decreases |items|
  {
    if items != [] {
      if ItemValue(items[0], name).Some? {
        assert IsFirstMatch(items, name, 0);
      } else {
        var rest := items[1..];
        FindValueFirstMatch(rest, name);
        if FindValue(rest, name).Some? {
          var i :| IsFirstMatch(rest, name, i) && ItemValue(rest[i], name) == FindValue(rest, name);
          FirstMatchShift(items, name, i);
        } else {
          NoMatchShift(items, name);
        }
      }
    }
  }

  datatype DecodeError = NoMatchingItemFound

  /** `Manager::from_header_value`; the cookie's lifetime is not checked. */
  function FromHeaderValue(m: Manager, header: string): (r: Result<string, DecodeError>)
    ensures r.Ok? ==> exists i :: IsFirstMatch(Split(header), m.name, i) && ItemValue(Split(header)[i], m.name) == Some(r.value)
    ensures r.Err? ==> forall i :: 0 <= i < |Split(header)| ==> ItemValue(Split(header)[i], m.name).None?
  {
    FindValueFirstMatch(Split(header), m.name);
    match FindValue(Split(header), m.name)
    case Some(v) => Ok(v)
    case None => Err(NoMatchingItemFound)
  }

  /** A name the reader can find again: no `;` or `=`, no leading whitespace. */
  predicate ReadableName(name: string) {
    ';' !in name && '=' !in name
    && (name == [] || !IsWhitespace(name[0]))
  }

  /** A value the reader gives back unchanged: no `;`, no trailing whitespace. */
  predicate ReadableValue(value: string) {
    ';' !in value
    && (value == [] || !IsWhitespace(value[|value| - 1]))
  }

  /** Empty, or starting a new `;`-separated item. */
  predicate StartsItem(s: string) {
    s == [] || s[0] == ';'
  }

  lemma StartsItemConcat(a: string, b: string)
    requires StartsItem(a) && StartsItem(b)
    ensures StartsItem(a + b)
  {
    if a == [] {
      assert a + b == b;
    }
  }

  lemma AttrStartsItem(o: Option<string>)
    ensures StartsItem(Attr(o))
  {
  }

  /** The attributes a manager writes are empty or begin with `;`. */
  lemma AttributesStartItem(m: Manager)
    ensures StartsItem(Attributes(m))
  {
    var a1, a2, a3, a4, a5 := Attr(PathAttr(m)), Attr(SiteAttr(m)), Attr(HttpOnlyAttr(m)), Attr(DomainAttr(m)), Attr(LifetimeAttr(m));
    AttrStartsItem(PathAttr(m));
    AttrStartsItem(SiteAttr(m));
    AttrStartsItem(HttpOnlyAttr(m));
    AttrStartsItem(DomainAttr(m));
    AttrStartsItem(LifetimeAttr(m));
    StartsItemConcat(a1, a2);
    StartsItemConcat(a1 + a2, a3);
    StartsItemConcat(a1 + a2 + a3, a4);
    StartsItemConcat(a1 + a2 + a3 + a4, a5);
  }

  /** Text without `;`, followed by text that starts a new item, is the first item. */
  lemma FirstPiece(first: string, rest: string)
    requires ';' !in first && StartsItem(rest)
    ensures Split(first + rest)[0] == first
  {
    if rest == [] {
      SplitAtSeparator(first, []);
      assert first + rest == first;
    } else {
      assert first + rest == first + ";" + rest[1..];
      SplitAtSeparator(first, rest[1..]);
    }
  }

  /** The first item of the written header is `name=value`. */
  lemma FirstItem(m: Manager, value: string)
    requires ReadableName(m.name) && ReadableValue(value)
    ensures Split(HeaderValue(m, value))[0] == m.name + "=" + value
  {
    AttributesStartItem(m);
    FirstPiece(m.name + "=" + value, Attributes(m));
  }

  /** `find_map` stops at a matching first item. */
  lemma FindValueHead(items: seq<string>, name: string)
    requires items != [] && ItemValue(items[0], name).Some?
    ensures FindValue(items, name) == ItemValue(items[0], name)
  {
  }

  /** A readable `name=value` item, trimmed and split at its first `=`, is `name` and `value`. */
  lemma WrittenItemValue(name: string, value: string)
    requires ReadableName(name) && ReadableValue(value)
    ensures ItemValue(name + "=" + value, name) == Some(value)
  {
    var item := name + "=" + value;
    assert item[0] == (if name == [] then '=' else name[0]);
    assert item[|item| - 1] == (if value == [] then '=' else value[|value| - 1]);
    TrimUnchanged(item);
    SplitOnceAt(name, value);
  }

  /** Reading back the header value a manager writes gives the value written. */
  lemma HeaderRoundTrip(m: Manager, value: string)
    requires ReadableName(m.name) && ReadableValue(value)
    ensures FromHeaderValue(m, HeaderValue(m, value)) == Ok(value)
  {
    var items := Split(HeaderValue(m, value));
    FirstItem(m, value);
    WrittenItemValue(m.name, value);
    FindValueHead(items, m.name);
  }

  // ----- the attributes as a reader splits them -----

  /** Items written one after another, each after a `;`. */
  function Items(ps: seq<string>): string
    decreases |ps|
  {
    if ps == [] then [] else ";" + ps[0] + Items(ps[1..])
  }

  lemma {:induction false} ItemsConcat(a: seq<string>, b: seq<string>)
    ensures Items(a + b) == Items(a) + Items(b)
    decreases |a|
  {
    if a == [] {
      assert a + b == b;
    } else {
      ItemsConcat(a[1..], b);
      assert (a + b)[1..] == a[1..] + b;
    }
  }

  predicate NoSeparator(ps: seq<string>) {
    forall i :: 0 <= i < |ps| ==> ';' !in ps[i]
  }

  lemma NoSeparatorConcat(a: seq<string>, b: seq<string>)
    requires NoSeparator(a) && NoSeparator(b)
    ensures NoSeparator(a + b)
  {
    forall i | 0 <= i < |a + b|
      ensures ';' !in (a + b)[i]
    {
      if i >= |a| {
        assert (a + b)[i] == b[i - |a|];
      }
    }
  }

  /** A head without `;` followed by items without `;` splits into the head and those items. */
  lemma {:induction false} SplitItems(head: string, ps: seq<string>)
    requires ';' !in head && NoSeparator(ps)
    ensures Split(head + Items(ps)) == [head] + ps
    decreases |ps|
  {
    if ps == [] {
      SplitAtSeparator(head, []);
      assert head + Items(ps) == head;
    } else {
      var rest := ps[0] + Items(ps[1..]);
      SplitItems(ps[0], ps[1..]);
      assert head + Items(ps) == head + ";" + rest;
      SplitAtSeparator(head, rest);
      assert [ps[0]] + ps[1..] == ps;
    }
  }

  /** The items the `Secure`/`SameSite` attribute splits into: the `SameSite` part, then `Secure`. */
  function SiteItems(a: SecureSameSite): seq<string> {
    (if a.SiteOf() == Unset then [] else [" SameSite=" + SiteValue(a)])
    + (if a.HasSecure() then [" Secure"] else [])
  }

  /** The item each optional part of a manager splits into, when it is set. */
  function PathItems(m: Manager): seq<string> {
    if m.path.Some? then [" Path=" + m.path.value] else []
  }

  function SiteItemsOf(m: Manager): seq<string> {
    if m.secureSameSite.Some? then SiteItems(m.secureSameSite.value) else []
  }

  function HttpOnlyItems(m: Manager): seq<string> {
    if m.httpOnly then [" HttpOnly"] else []
  }

  function DomainItems(m: Manager): seq<string> {
    if m.domain.Some? then [" Domain=" + m.domain.value] else []
  }

  function LifetimeItems(m: Manager): seq<string> {
    if m.lifetime.Some? then [" " + m.lifetime.value.Text()] else []
  }

  /**
    The items after `name=value`, in the order the header writes them, each
    present exactly when its part of the manager is set.
   */
  function AttributeItems(m: Manager): seq<string> {
    PathItems(m) + SiteItemsOf(m) + HttpOnlyItems(m) + DomainItems(m) + LifetimeItems(m)
  }

  /** Attribute values a reader cannot confuse with item separators. */
  predicate PlainAttributes(m: Manager) {
    (m.path.Some? ==> ';' !in m.path.value)
    && (m.domain.Some? ==> ';' !in m.domain.value)
    && (m.lifetime.Some? && m.lifetime.value.Expires? ==> ';' !in m.lifetime.value.date)
  }

  lemma ItemsOne(x: string)
    ensures Items([x]) == ";" + x
  {
    assert [x][1..] == [];
  }

  lemma ItemsTwo(x: string, y: string)
    ensures Items([x, y]) == ";" + x + ";" + y
  {
    assert [x, y][1..] == [y];
    ItemsOne(y);
  }

  /** `; SameSite=x` and `; Secure` as `;`-prefixed items. */
  lemma SiteTextItems(x: string)
    ensures "; " + ("SameSite=" + x) == Items([" SameSite=" + x])
    ensures "; " + ("SameSite=" + x + "; Secure") == Items([" SameSite=" + x, " Secure"])
    ensures "; " + "Secure" == Items([" Secure"])
  {
    ItemsOne(" SameSite=" + x);
    ItemsTwo(" SameSite=" + x, " Secure");
    ItemsOne(" Secure");
  }

  /** The `SameSite` value an attribute writes, when it has one. */
  function SiteValue(a: SecureSameSite): string {
    if a.SiteOf().Only? then SameSiteText(a.SiteOf().ss) else "None"
  }

  lemma SiteValueNoSeparator(a: SecureSameSite)
    ensures ';' !in SiteValue(a) && ';' !in " SameSite=" + SiteValue(a)
  {
  }

  lemma SiteItemsWritten(a: SecureSameSite)
    ensures Attr(Some(a.Text())) == Items(SiteItems(a))
    ensures NoSeparator(SiteItems(a))
  {
    var x := SiteValue(a);
    SiteValueNoSeparator(a);
    SiteTextItems(x);
    if a.SiteOf() == Unset {
      assert SiteItems(a) == [" Secure"];
    } else if a.HasSecure() {
      assert a.Text() == "SameSite=" + x + "; Secure";
      assert SiteItems(a) == [" SameSite=" + x, " Secure"];
    } else {
      assert a.Text() == "SameSite=" + x + "";
      assert SiteItems(a) == [" SameSite=" + x];
    }
  }

  /** A `Max-Age` text is a sign and digits, so it holds no `;`. */
  lemma MaxAgeNoSeparator(d: TimeDelta)
    ensures ';' !in MaxAge(d).Text()
  {
    var t := IntToString(NumSeconds(d));
    assert MaxAge(d).Text() == "Max-Age=" + t;
    if t[0] != '-' {
      assert IntDigits(t) == t;
    }
    forall i | 0 <= i < |t|
      ensures t[i] != ';'
    {
      if i > 0 || t[0] != '-' {
        var k := if t[0] == '-' then i - 1 else i;
        assert t[i] == IntDigits(t)[k];
      }
    }
  }

  lemma OneItem(o: Option<string>, text: string)
    requires o.Some? ==> o.value == text
    ensures Attr(o) == Items(if o.Some? then [" " + text] else [])
  {
    if o.Some? {
      ItemsOne(" " + text);
    }
  }

  /** Five written parts, each its items after `;`, are together all the items after `;`. */
  lemma ItemsOfFive(a: seq<string>, b: seq<string>, c: seq<string>, d: seq<string>, e: seq<string>)
    requires NoSeparator(a) && NoSeparator(b) && NoSeparator(c) && NoSeparator(d) && NoSeparator(e)
    ensures Items(a) + Items(b) + Items(c) + Items(d) + Items(e) == Items(a + b + c + d + e)
    ensures NoSeparator(a + b + c + d + e)
  {
    ItemsConcat(a, b);
    ItemsConcat(a + b, c);
    ItemsConcat(a + b + c, d);
    ItemsConcat(a + b + c + d, e);
    NoSeparatorConcat(a, b);
    NoSeparatorConcat(a + b, c);
    NoSeparatorConcat(a + b + c, d);
    NoSeparatorConcat(a + b + c + d, e);
  }

  lemma PathWritten(m: Manager)
    requires PlainAttributes(m)
    ensures Attr(PathAttr(m)) == Items(PathItems(m)) && NoSeparator(PathItems(m))
  {
    if m.path.Some? {
      OneItem(PathAttr(m), "Path=" + m.path.value);
      assert ';' !in " Path=" + m.path.value;
    }
  }

  lemma SiteWritten(m: Manager)
    ensures Attr(SiteAttr(m)) == Items(SiteItemsOf(m)) && NoSeparator(SiteItemsOf(m))
  {
    if m.secureSameSite.Some? {
      SiteItemsWritten(m.secureSameSite.value);
    }
  }

  lemma HttpOnlyWritten(m: Manager)
    ensures Attr(HttpOnlyAttr(m)) == Items(HttpOnlyItems(m)) && NoSeparator(HttpOnlyItems(m))
  {
    OneItem(HttpOnlyAttr(m), "HttpOnly");
  }

  lemma DomainWritten(m: Manager)
    requires PlainAttributes(m)
    ensures Attr(DomainAttr(m)) == Items(DomainItems(m)) && NoSeparator(DomainItems(m))
  {
    if m.domain.Some? {
      OneItem(DomainAttr(m), "Domain=" + m.domain.value);
      assert ';' !in " Domain=" + m.domain.value;
    }
  }

  lemma LifetimeWritten(m: Manager)
    requires PlainAttributes(m)
    ensures Attr(LifetimeAttr(m)) == Items(LifetimeItems(m)) && NoSeparator(LifetimeItems(m))
  {
    if m.lifetime.Some? {
      OneItem(LifetimeAttr(m), m.lifetime.value.Text());
      if m.lifetime.value.MaxAge? {
        MaxAgeNoSeparator(m.lifetime.value.age);
      }
      assert ';' !in " " + m.lifetime.value.Text();
    }
  }

  /** The attributes a manager writes are exactly its attribute items, each after a `;`. */
  lemma AttributesAreItems(m: Manager)
    requires PlainAttributes(m)
    ensures Attributes(m) == Items(AttributeItems(m))
    ensures NoSeparator(AttributeItems(m))
  {
    PathWritten(m);
    SiteWritten(m);
    HttpOnlyWritten(m);
    DomainWritten(m);
    LifetimeWritten(m);
    ItemsOfFive(PathItems(m), SiteItemsOf(m), HttpOnlyItems(m), DomainItems(m), LifetimeItems(m));
  }

  /**
    A reader splitting the header value at `;` finds `name=value`, then the
    path, the `SameSite` part, `Secure`, `HttpOnly`, the domain and the
    lifetime, in that order, each exactly when it is set.
   */
  lemma HeaderItems(m: Manager, value: string)
    requires ';' !in m.name && ';' !in value && PlainAttributes(m)
    ensures Split(HeaderValue(m, value)) == [m.name + "=" + value] + AttributeItems(m)
  {
    AttributesAreItems(m);
    SplitItems(m.name + "=" + value, AttributeItems(m));
  }
}
