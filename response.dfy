/**
 * `Http::Response` (src/http/response.cpp): the status code, the payload
 * (text, resource or file, selected by `type_`) and the header fields,
 * kept as an ordered list of name/value pairs in insertion order.
 *
 * The header names come from `Http::Header::Fields`, whose declaration is
 * not part of this model; they are taken to be the standard spellings.
 * `std::stoi` and `std::to_string` are modelled concretely below
 * (`Stoi`, `ToDecimal`); the clock (`Date::Now()`) and the settings store
 * are parameters of `Init`.
 */
module HttpResponse {
  import opened Base

  /** The header list: `std::vector<std::pair<std::string, std::string>>`. */
  type Fields = seq<(string, string)>

  const OK: int := 200

  const DateName: string := "Date"
  const ConnectionName: string := "Connection"
  const AllowOriginName: string := "Access-Control-Allow-Origin"
  const ContentTypeName: string := "Content-Type"
  const ContentLengthName: string := "Content-Length"
  const TransferEncodingName: string := "Transfer-Encoding"
  const CacheControlName: string := "Cache-Control"

  /** The seven names have seven different lengths, so no two of them are equal. */
  lemma NameLengths()
    ensures |DateName| == 4 && |ConnectionName| == 10 && |AllowOriginName| == 27
    ensures |ContentTypeName| == 12 && |ContentLengthName| == 14
    ensures |TransferEncodingName| == 17 && |CacheControlName| == 13
  {
  }

  const KeepAliveValue: string := "Keep-Alive"
  const TextPlainUtf8: string := "text/plain; charset=utf-8"

  /** `Response::Type`, plus `Unset` for a response whose type was never assigned. */
  datatype Type = Resource | Text | File | Unset

  /** The part of a cached resource the response reads: its path and its content. */
  datatype StoredResource = StoredResource(path: string, content: seq<Byte>)

  /** `std::size_t` holds values modulo 2^64. */
  const SizeModulus: int := 0x1_0000_0000_0000_0000

  /** Conversion of an `int` to `std::size_t`: a negative value wraps around. */
  function SizeT(v: int): (r: nat)
    ensures r < SizeModulus
    ensures 0 <= v < SizeModulus ==> r == v
    ensures -SizeModulus <= v < 0 ==> r == SizeModulus + v
  {
    v % SizeModulus
  }

  // ----- std::to_string and std::stoi -----

  predicate IsDigit(c: char) {
    '0' <= c <= '9'
  }

  /** The characters `isspace` accepts in the C locale. */
  predicate IsSpace(c: char) {
    c == ' ' || c == '\t' || c == '\n' || c == 11 as char || c == 12 as char || c == '\r'
  }

  predicate AllDigits(s: string) {
    forall i :: 0 <= i < |s| ==> IsDigit(s[i])
  }

  function DigitChar(d: nat): (c: char)
    requires d < 10
    ensures IsDigit(c)
  {
    ('0' as int + d) as char
  }

  /** The number a run of decimal digits denotes, most significant first. */
  function DigitsValue(s: string): nat
    requires AllDigits(s)
  {
    if s == [] then 0 else DigitsValue(s[..|s| - 1]) * 10 + (s[|s| - 1] as int - '0' as int)
  }

  /** `std::to_string` of a non-negative integer. */
  function ToDecimal(n: nat): (s: string)
    ensures |s| > 0 && AllDigits(s)
  {
    if n < 10 then [DigitChar(n)] else ToDecimal(n / 10) + [DigitChar(n % 10)]
  }

  /** `std::to_string` writes the digits of exactly `n`, with no leading zero. */
  lemma {:induction false} ToDecimalValue(n: nat)
    ensures DigitsValue(ToDecimal(n)) == n
    ensures |ToDecimal(n)| > 1 ==> ToDecimal(n)[0] != '0'
  {
    if n >= 10 {
      ToDecimalValue(n / 10);
      var s := ToDecimal(n);
      assert s[..|s| - 1] == ToDecimal(n / 10);
    }
  }

  function SkipSpace(s: string): (r: string)
    ensures r == [] || !IsSpace(r[0])
    ensures |r| <= |s| && r == s[|s| - |r|..]
  {
    if s != [] && IsSpace(s[0]) then SkipSpace(s[1..]) else s
  }

  /** The length of the run of digits `s` starts with. */
  function DigitRun(s: string): (n: nat)
    ensures n <= |s| && AllDigits(s[..n])
    ensures n < |s| ==> !IsDigit(s[n])
  {
    if s != [] && IsDigit(s[0]) then
      var n := 1 + DigitRun(s[1..]);
      assert forall i :: 1 <= i < n ==> s[..n][i] == s[1..][..n - 1][i - 1];
      n
    else 0
  }

  /**
   * `std::stoi(s)` in base 10: leading white space is skipped, one sign is
   * optional, and the longest run of digits after it is converted; without
   * any digit it throws `std::invalid_argument` (None).
   */
  function Stoi(s: string): Option<int> {
    StoiUnspaced(SkipSpace(s))
  }

  /** `std::stoi` once leading white space is gone. */
  function StoiUnspaced(u: string): Option<int> {
    var signed := u != [] && (u[0] == '-' || u[0] == '+');
    var body := if signed then u[1..] else u;
    var n := DigitRun(body);
    var magnitude: int := if n == 0 then 0 else DigitsValue(body[..n]);
    if n == 0 then None
    else if signed && u[0] == '-' then Some(-magnitude)
    else Some(magnitude)
  }

  /** `std::stoi` reads back what `std::to_string` wrote. */
  lemma StoiToDecimal(n: nat)
    ensures Stoi(ToDecimal(n)) == Some(n)
  {
    ToDecimalValue(n);
    StoiDigits(ToDecimal(n));
  }

  lemma StoiDigits(s: string)
    requires |s| > 0 && AllDigits(s)
    ensures Stoi(s) == Some(DigitsValue(s) as int)
  {
    SkipSpaceDigits(s);
    StoiUnspacedDigits(s);
  }

  /** An unsigned run of digits converts to its value. */
  lemma StoiUnspacedDigits(u: string)
    requires |u| > 0 && AllDigits(u)
    ensures StoiUnspaced(u) == Some(DigitsValue(u) as int)
  {
    assert IsDigit(u[0]);
    DigitRunAll(u);
    assert u[..|u|] == u;
  }

  /** A minus sign in front of the digits negates the value. */
  lemma StoiNegative(s: string)
    requires |s| > 0 && AllDigits(s)
    ensures Stoi("-" + s) == Some(-(DigitsValue(s) as int))
  {
    DigitRunAll(s);
    assert s[..|s|] == s;
    var m := "-" + s;
    assert SkipSpace(m) == m;
    assert m[1..] == s;
  }

  /** Leading white space is skipped. */
  lemma StoiLeadingSpace(s: string)
    requires |s| > 0 && AllDigits(s)
    ensures Stoi(" " + s) == Some(DigitsValue(s) as int)
  {
    var p := " " + s;
    SkipOneSpace(p, s);
    SkipSpaceDigits(s);
    StoiUnspacedDigits(s);
  }

  lemma SkipOneSpace(p: string, s: string)
    requires p == " " + s
    ensures SkipSpace(p) == SkipSpace(s)
  {
    assert p[1..] == s;
  }

  lemma SkipSpaceDigits(s: string)
    requires |s| > 0 && AllDigits(s)
    ensures SkipSpace(s) == s
  {
    assert IsDigit(s[0]);
  }

  lemma DigitRunAll(s: string)
    requires AllDigits(s)
    ensures DigitRun(s) == |s|
  {
    if s != [] {
      DigitRunAll(s[1..]);
    }
  }

  // ----- the header list -----

  /** The names in the list are pairwise different. */
  predicate Unique(fs: Fields) {
    forall i, j :: 0 <= i < j < |fs| ==> fs[i].0 != fs[j].0
  }

  /** `std::find_if` on the name: the index of the first pair named `name`. */
  function FindField(fs: Fields, name: string): (r: Option<nat>)
    ensures r.Some? ==> r.value < |fs| && fs[r.value].0 == name
    ensures r.Some? ==> forall j :: 0 <= j < r.value ==> fs[j].0 != name
    ensures r.None? <==> forall j :: 0 <= j < |fs| ==> fs[j].0 != name
  {
    if fs == [] then None
    else if fs[0].0 == name then Some(0)
    else
      match FindField(fs[1..], name)
      case None => None
      case Some(i) => Some(i + 1)
  }

  /** The value of the first pair named `name`. */
  function Lookup(fs: Fields, name: string): Option<string> {
    match FindField(fs, name)
    case None => None
    case Some(i) => Some(fs[i].1)
  }

  lemma FirstAt(fs: Fields, name: string, i: nat)
    requires i < |fs| && fs[i].0 == name
    requires forall j :: 0 <= j < i ==> fs[j].0 != name
    ensures FindField(fs, name) == Some(i)
  {
  }

  /** `Response::Set` on the list. */
  function Upsert(fs: Fields, name: string, value: string): Fields {
    match FindField(fs, name)
    case None => fs + [(name, value)]
    case Some(i) => fs[i := (fs[i].0, value)]
  }

  /**
   * A name not yet present is appended with its value at the end;
   * otherwise the first pair with that name gets the new value in place.
   * No other pair changes and the list grows by at most one.
   */
  lemma UpsertPlacement(fs: Fields, name: string, value: string)
    ensures var r := Upsert(fs, name, value);
            && (FindField(fs, name).None? ==> |r| == |fs| + 1 && r[|fs|] == (name, value))
            && (FindField(fs, name).Some? ==> |r| == |fs| && r[FindField(fs, name).value] == (name, value))
            && (forall j :: 0 <= j < |fs| && Some(j) != FindField(fs, name) ==> r[j] == fs[j])
            && Lookup(r, name) == Some(value)
  {
    var r := Upsert(fs, name, value);
    match FindField(fs, name)
    case None =>
      FirstAt(r, name, |fs|);
    case Some(i) =>
      FirstAt(r, name, i);
  }

  /** After `Set(name, value)`, `name` reads `value` and every other name reads what it read before. */
  lemma UpsertLookup(fs: Fields, name: string, value: string, m: string)
    ensures Lookup(Upsert(fs, name, value), m) == if m == name then Some(value) else Lookup(fs, m)
  {
    UpsertPlacement(fs, name, value);
    var r := Upsert(fs, name, value);
    if m != name {
      match FindField(fs, m)
      case Some(i) =>
        FirstAt(r, m, i);
      case None =>
        assert forall j :: 0 <= j < |r| ==> r[j].0 != m by {
          forall j | 0 <= j < |r|
            ensures r[j].0 != m
          {
            if j < |fs| && Some(j) != FindField(fs, name) {
              assert r[j] == fs[j];
            }
          }
        }
    }
  }

  lemma UpsertLookups(fs: Fields, name: string, value: string)
    ensures forall m :: Lookup(Upsert(fs, name, value), m) == if m == name then Some(value) else Lookup(fs, m)
  {
    forall m
      ensures Lookup(Upsert(fs, name, value), m) == if m == name then Some(value) else Lookup(fs, m)
    {
      UpsertLookup(fs, name, value, m);
    }
  }

  /** `Set` never introduces a second pair with the same name. */
  lemma UpsertUnique(fs: Fields, name: string, value: string)
    requires Unique(fs)
    ensures Unique(Upsert(fs, name, value))
  {
    UpsertPlacement(fs, name, value);
    var r := Upsert(fs, name, value);
    forall i, j | 0 <= i < j < |r|
      ensures r[i].0 != r[j].0
    {
      if FindField(fs, name).None? {
        if j == |fs| {
          assert r[i] == fs[i];
        } else {
          assert r[i] == fs[i] && r[j] == fs[j];
        }
      } else {
        var k := FindField(fs, name).value;
        assert r[i].0 == fs[i].0 && r[j].0 == fs[j].0;
      }
    }
  }

  // ----- the lookups -----

  /** The size of the payload `type_` selects; 0 when the type is none of the three. */
  function PayloadSize(kind: Type, text: string, resource: StoredResource, file: Option<nat>): nat
    requires kind == File ==> file.Some?
  {
    match kind
    case File => file.value
    case Resource => |resource.content|
    case Text => |text|
    case Unset => 0
  }

  /**
   * `Response::ContentLength`: an explicit Content-Length field wins and is
   * parsed by `std::stoi` (None when that throws `std::invalid_argument`),
   * the parsed `int` converted to `std::size_t`; without one, the size of
   * the payload `type_` selects. A file response dereferences its file.
   */
  function ContentLengthOf(fs: Fields, kind: Type, text: string, resource: StoredResource, file: Option<nat>): (r: Option<nat>)
    requires Lookup(fs, ContentLengthName).None? && kind == File ==> file.Some?
    ensures Lookup(fs, ContentLengthName).None? ==> r == Some(PayloadSize(kind, text, resource, file))
    ensures r.Some? ==> r.value < SizeModulus || Lookup(fs, ContentLengthName).None?
  {
    match Lookup(fs, ContentLengthName)
    case Some(v) =>
      (match Stoi(v)
       case None => None
       case Some(n) => Some(SizeT(n)))
    case None => Some(PayloadSize(kind, text, resource, file))
  }

  /** Only the first Content-Length field matters to `ContentLengthOf`. */
  lemma ContentLengthOfLookup(fs: Fields, gs: Fields, kind: Type, text: string, resource: StoredResource, file: Option<nat>)
    requires Lookup(fs, ContentLengthName) == Lookup(gs, ContentLengthName)
    requires Lookup(fs, ContentLengthName).None? && kind == File ==> file.Some?
    ensures ContentLengthOf(fs, kind, text, resource, file) == ContentLengthOf(gs, kind, text, resource, file)
  {
  }

  /** `Response::GetKeepAlive`: the first Connection field reads exactly "Keep-Alive", case included. */
  function KeepAliveOf(fs: Fields): (b: bool)
    ensures b <==> Lookup(fs, ConnectionName) == Some(KeepAliveValue)
  {
    match FindField(fs, ConnectionName)
    case None => false
    case Some(i) => fs[i].1 == KeepAliveValue
  }

  /** The comparison is case-sensitive and only the first Connection field counts. */
  lemma KeepAliveExact()
    ensures !KeepAliveOf([(ConnectionName, "keep-alive")])
    ensures !KeepAliveOf([(ConnectionName, "close"), (ConnectionName, KeepAliveValue)])
    ensures KeepAliveOf([(DateName, "x"), (ConnectionName, KeepAliveValue)])
  {
    assert "keep-alive"[0] != KeepAliveValue[0];
    assert FindField([(ConnectionName, "close"), (ConnectionName, KeepAliveValue)], ConnectionName) == Some(0);
    assert DateName[0] != ConnectionName[0];
    FirstAt([(DateName, "x"), (ConnectionName, KeepAliveValue)], ConnectionName, 1);
  }

  /** An explicit Content-Length written with `std::to_string` is what `ContentLength` reads back. */
  lemma ContentLengthRoundTrip(fs: Fields, n: nat, kind: Type, text: string, resource: StoredResource, file: Option<nat>)
    requires n < SizeModulus
    requires kind == File ==> file.Some?
    ensures ContentLengthOf(Upsert(fs, ContentLengthName, ToDecimal(n)), kind, text, resource, file) == Some(n)
  {
    UpsertPlacement(fs, ContentLengthName, ToDecimal(n));
    StoiToDecimal(n);
  }

  /** The seven fields `Init` gives a response that has none, in this order. */
  function FreshHeaders(now: string, length: nat, maxAge: nat): (h: Fields)
    ensures |h| == 7
  {
    InitHead(now)
    + [ (ContentLengthName, ToDecimal(length)),
        (TransferEncodingName, "binary"),
        (CacheControlName, "max-age=" + ToDecimal(maxAge)) ]
  }

  /** `Set` of a name not yet present appends the pair. */
  lemma UpsertAbsent(fs: Fields, name: string, value: string)
    requires forall j :: 0 <= j < |fs| ==> fs[j].0 != name
    ensures Upsert(fs, name, value) == fs + [(name, value)]
  {
  }

  /** The four fields `Init` sets before it asks for the content length, on an empty list. */
  function InitHead(now: string): Fields {
    [(DateName, now), (ConnectionName, KeepAliveValue), (AllowOriginName, "*"), (ContentTypeName, TextPlainUtf8)]
  }

  /** On an empty list, the first four calls of `Init` append one field each. */
  lemma InitHeadFromEmpty(now: string)
    ensures Upsert(Upsert(Upsert(Upsert([], DateName, now), ConnectionName, KeepAliveValue),
                          AllowOriginName, "*"), ContentTypeName, TextPlainUtf8) == InitHead(now)
    ensures Lookup(InitHead(now), ContentLengthName).None?
  {
    NameLengths();
    var l1 := [(DateName, now)];
    UpsertAbsent([], DateName, now);
    var l2 := l1 + [(ConnectionName, KeepAliveValue)];
    UpsertAbsent(l1, ConnectionName, KeepAliveValue);
    var l3 := l2 + [(AllowOriginName, "*")];
    UpsertAbsent(l2, AllowOriginName, "*");
    UpsertAbsent(l3, ContentTypeName, TextPlainUtf8);
    assert l3 + [(ContentTypeName, TextPlainUtf8)] == InitHead(now);
  }

  /** After those four, the last three calls of `Init` append one field each too. */
  lemma InitTailAfterHead(now: string, length: string, cache: string)
    ensures Upsert(Upsert(Upsert(InitHead(now), ContentLengthName, length), TransferEncodingName, "binary"),
                   CacheControlName, cache)
            == InitHead(now) + [(ContentLengthName, length), (TransferEncodingName, "binary"), (CacheControlName, cache)]
  {
    NameLengths();
    var l4 := InitHead(now);
    UpsertAbsent(l4, ContentLengthName, length);
    var l5 := l4 + [(ContentLengthName, length)];
    UpsertAbsent(l5, TransferEncodingName, "binary");
    var l6 := l5 + [(TransferEncodingName, "binary")];
    UpsertAbsent(l6, CacheControlName, cache);
    assert l6 + [(CacheControlName, cache)]
           == l4 + [(ContentLengthName, length), (TransferEncodingName, "binary"), (CacheControlName, cache)];
  }

  /** The first four calls of `Init`: what each name reads afterwards, and uniqueness kept. */
  lemma HeadLookups(f0: Fields, now: string)
    ensures var f4 := Upsert(Upsert(Upsert(Upsert(f0, DateName, now), ConnectionName, KeepAliveValue),
                                    AllowOriginName, "*"), ContentTypeName, TextPlainUtf8);
            && (forall m {:trigger Lookup(f4, m)} :: Lookup(f4, m) ==
                  if m == DateName then Some(now)
                  else if m == ConnectionName then Some(KeepAliveValue)
                  else if m == AllowOriginName then Some("*")
                  else if m == ContentTypeName then Some(TextPlainUtf8)
                  else Lookup(f0, m))
            && (Unique(f0) ==> Unique(f4))
  {
    var f1 := Upsert(f0, DateName, now);
    var f2 := Upsert(f1, ConnectionName, KeepAliveValue);
    var f3 := Upsert(f2, AllowOriginName, "*");
    var f4 := Upsert(f3, ContentTypeName, TextPlainUtf8);
    UpsertLookups(f0, DateName, now);
    UpsertLookups(f1, ConnectionName, KeepAliveValue);
    UpsertLookups(f2, AllowOriginName, "*");
    UpsertLookups(f3, ContentTypeName, TextPlainUtf8);
    if Unique(f0) {
      UpsertUnique(f0, DateName, now);
      UpsertUnique(f1, ConnectionName, KeepAliveValue);
      UpsertUnique(f2, AllowOriginName, "*");
      UpsertUnique(f3, ContentTypeName, TextPlainUtf8);
    }
  }

  /** The last three calls of `Init`, likewise. */
  lemma TailLookups(f4: Fields, length: string, cache: string)
    ensures var f7 := Upsert(Upsert(Upsert(f4, ContentLengthName, length), TransferEncodingName, "binary"),
                             CacheControlName, cache);
            && (forall m {:trigger Lookup(f7, m)} :: Lookup(f7, m) ==
                  if m == ContentLengthName then Some(length)
                  else if m == TransferEncodingName then Some("binary")
                  else if m == CacheControlName then Some(cache)
                  else Lookup(f4, m))
            && (Unique(f4) ==> Unique(f7))
  {
    var f5 := Upsert(f4, ContentLengthName, length);
    var f6 := Upsert(f5, TransferEncodingName, "binary");
    UpsertLookups(f4, ContentLengthName, length);
    UpsertLookups(f5, TransferEncodingName, "binary");
    UpsertLookups(f6, CacheControlName, cache);
    if Unique(f4) {
      UpsertUnique(f4, ContentLengthName, length);
      UpsertUnique(f5, TransferEncodingName, "binary");
      UpsertUnique(f6, CacheControlName, cache);
    }
  }

  /** The names `Init` sets. */
  predicate SetByInit(m: string) {
    || m == DateName || m == ConnectionName || m == AllowOriginName || m == ContentTypeName
    || m == ContentLengthName || m == TransferEncodingName || m == CacheControlName
  }

  /**
   * A freshly initialised header list has unique names, keeps the
   * connection alive and declares the payload's size, whatever the
   * payload type.
   */
  lemma FreshHeadersFacts(now: string, length: nat, maxAge: nat, kind: Type, text: string, resource: StoredResource, file: Option<nat>)
    requires length < SizeModulus
    requires kind == File ==> file.Some?
    ensures var h := FreshHeaders(now, length, maxAge);
            && Unique(h) && KeepAliveOf(h)
            && ContentLengthOf(h, kind, text, resource, file) == Some(length)
  {
    var h := FreshHeaders(now, length, maxAge);
    assert Unique(h) by {
      forall i, j | 0 <= i < j < |h|
        ensures h[i].0 != h[j].0
      {
        assert h[i].0[..3] != h[j].0[..3] || |h[i].0| != |h[j].0|;
      }
    }
    FirstAt(h, ConnectionName, 1);
    FirstAt(h, ContentLengthName, 4);
    StoiToDecimal(length);
  }

  // ----- the response object -----

  class Response {
    var code: int
    var kind: Type
    var text: string
    var resource: StoredResource
    /** The size of the file `file_` points to; None for a null pointer. */
    var file: Option<nat>
    var fields: Fields

    /** `Response()`: status OK and nothing else set. */
    constructor Default()
      ensures code == OK && kind == Unset && fields == []
      ensures text == [] && resource == StoredResource([], []) && file == None
    {
      code, kind, text, resource, file, fields := OK, Unset, [], StoredResource([], []), None, [];
    }

    method SetResource(r: StoredResource)
      modifies this
      ensures resource == r && kind == Resource
      ensures code == old(code) && text == old(text) && file == old(file) && fields == old(fields)
    {
      resource := r;
      kind := Resource;
    }

    method SetText(t: string)
      modifies this
      ensures text == t && kind == Text
      ensures code == old(code) && resource == old(resource) && file == old(file) && fields == old(fields)
    {
      text := t;
      kind := Text;
    }

    method SetFile(f: Option<nat>)
      modifies this
      ensures file == f && kind == File
      ensures code == old(code) && text == old(text) && resource == old(resource) && fields == old(fields)
    {
      file := f;
      kind := File;
    }

    /** `Set(field, value)`: upsert into the header list. */
    method Set(field: string, value: string)
      modifies this
      ensures fields == Upsert(old(fields), field, value)
      ensures Unique(old(fields)) ==> Unique(fields)
      ensures code == old(code) && kind == old(kind) && text == old(text)
      ensures resource == old(resource) && file == old(file)
    {
      ghost var before := fields;
      match FindField(fields, field) {
        case None =>
          fields := fields + [(field, value)];
        case Some(i) =>
          fields := fields[i := (fields[i].0, value)];
      }
      if Unique(before) {
        UpsertUnique(before, field, value);
      }
    }

    /**
     * `Init()`: sets Date, Connection, Access-Control-Allow-Origin and
     * Content-Type, then Content-Length from `ContentLength()`, then
     * Transfer-Encoding and Cache-Control. When `ContentLength()` throws,
     * `Init` stops there (`ok` false) with the first four set. `now` is
     * what `Date::Now().ToString()` returned, `maxAge` the configured
     * default max-age.
     */
    method Init(now: string, maxAge: nat) returns (ok: bool)
      requires Lookup(fields, ContentLengthName).None? && kind == File ==> file.Some?
      modifies this
      ensures code == old(code) && kind == old(kind) && text == old(text)
      ensures resource == old(resource) && file == old(file)
      ensures ok <==> ContentLengthOf(old(fields), kind, text, resource, file).Some?
      ensures Lookup(fields, DateName) == Some(now)
      ensures Lookup(fields, AllowOriginName) == Some("*")
      ensures Lookup(fields, ContentTypeName) == Some(TextPlainUtf8)
      ensures KeepAliveOf(fields)
      ensures ok ==> && Lookup(fields, ContentLengthName)
                        == Some(ToDecimal(ContentLengthOf(old(fields), kind, text, resource, file).value))
                     && Lookup(fields, TransferEncodingName) == Some("binary")
                     && Lookup(fields, CacheControlName) == Some("max-age=" + ToDecimal(maxAge))
      ensures !ok ==> && Lookup(fields, ContentLengthName) == Lookup(old(fields), ContentLengthName)
                      && Lookup(fields, TransferEncodingName) == Lookup(old(fields), TransferEncodingName)
                      && Lookup(fields, CacheControlName) == Lookup(old(fields), CacheControlName)
      ensures forall m :: !SetByInit(m) ==> Lookup(fields, m) == Lookup(old(fields), m)
      ensures Unique(old(fields)) ==> Unique(fields)
      ensures old(fields) == [] ==> ok && fields == FreshHeaders(now, PayloadSize(kind, text, resource, file), maxAge)
    {
      ghost var f0 := fields;
      NameLengths();
      HeadLookups(f0, now);
      Set(DateName, now);
      Set(ConnectionName, KeepAliveValue);
      Set(AllowOriginName, "*");
      Set(ContentTypeName, TextPlainUtf8);
      assert Lookup(fields, ContentLengthName) == Lookup(f0, ContentLengthName);
      ContentLengthOfLookup(fields, f0, kind, text, resource, file);
      var length := ContentLengthOf(fields, kind, text, resource, file);
      if length.None? {
        return false;
      }
      ghost var f4 := fields;
      TailLookups(f4, ToDecimal(length.value), "max-age=" + ToDecimal(maxAge));
      Set(ContentLengthName, ToDecimal(length.value));
      Set(TransferEncodingName, "binary");
      Set(CacheControlName, "max-age=" + ToDecimal(maxAge));
      ok := true;
      if f0 == [] {
        InitHeadFromEmpty(now);
        InitTailAfterHead(now, ToDecimal(length.value), "max-age=" + ToDecimal(maxAge));
      }
    }

    /** `Response(code)`: a text response with no text, initialised. */
    constructor WithCode(code: int, now: string, maxAge: nat)
      ensures this.code == code && kind == Text && text == []
      ensures fields == FreshHeaders(now, 0, maxAge)
    {
      this.code, kind, text, resource, file, fields := code, Text, [], StoredResource([], []), None, [];
      new;
      var ok := Init(now, maxAge);
    }

    /** `Response(text)`: status OK, a text payload, initialised; Content-Length is the text's size. */
    constructor FromText(text: string, now: string, maxAge: nat)
      ensures code == OK && kind == Text && this.text == text
      ensures fields == FreshHeaders(now, |text|, maxAge)
    {
      code, kind, this.text, resource, file, fields := OK, Text, text, StoredResource([], []), None, [];
      new;
      var ok := Init(now, maxAge);
    }

    /**
     * `Response(resource)`: status OK, a resource payload, initialised,
     * then Content-Type overwritten in place with `mime`, what the MIME
     * table holds for the resource's extension.
     */
    constructor FromResource(resource: StoredResource, mime: string, now: string, maxAge: nat)
      ensures code == OK && kind == Resource && this.resource == resource
      ensures fields == FreshHeaders(now, |resource.content|, maxAge)[3 := (ContentTypeName, mime)]
    {
      code, kind, text, this.resource, file, fields := OK, Resource, [], resource, None, [];
      new;
      var ok := Init(now, maxAge);
      FirstAt(fields, ContentTypeName, 3);
      Set(ContentTypeName, mime);
    }
  }
}
