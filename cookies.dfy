/** Cookies: the `next/headers` cookie store a route handler writes, and
    the request-side parsing of a raw `Cookie` header shared by
    `getAuthToken` (src/lib/auth.ts) and `getCsrfCookieFromRequest`
    (src/lib/csrf.ts). */
module Cookies {
  import opened Wrappers
  import Text

  datatype SameSite = Lax | Strict

  /** The options passed to `cookieStore.set`; `maxAge` in seconds. */
  datatype Attributes = Attributes(httpOnly: bool, secure: bool, sameSite: SameSite, maxAge: nat, path: string)

  datatype Cookie = Cookie(value: string, attributes: Attributes)

  /** The response's cookie store (`await cookies()`), by cookie name. */
  class CookieJar {
    var cookies: map<string, Cookie>

    constructor (initial: map<string, Cookie>)
      ensures cookies == initial
    {
      cookies := initial;
    }

    /** `cookieStore.get(name)?.value`. */
    function Get(name: string): (r: Option<string>)
      reads this
      ensures r.Some? <==> name in cookies
      ensures r.Some? ==> r.value == cookies[name].value
    {
      if name in cookies then Some(cookies[name].value) else None
    }

    /** `cookieStore.set(name, value, attributes)`: replaces that cookie only. */
    method Set(name: string, value: string, attributes: Attributes)
      modifies this
      ensures cookies == old(cookies)[name := Cookie(value, attributes)]
    {
      cookies := cookies[name := Cookie(value, attributes)];
    }

    /** `cookieStore.delete(name)`: removes that cookie only. */
    method Delete(name: string)
      modifies this
      ensures cookies == old(cookies) - {name}
    {
      cookies := cookies - {name};
    }
  }

  /** `header.split(";").map((c) => c.trim())`: one segment or more, the
      first being the trimmed text before the first `;`. */
  function Segments(header: string): (r: seq<string>)
    ensures |r| >= 1 && r[0] == Text.Trim(Text.UpTo(header, ';'))
  {
    TrimAll(Text.Split(header, ';'))
  }

  /** `parts.map((c) => c.trim())`. */
  function TrimAll(parts: seq<string>): (r: seq<string>)
    ensures |r| == |parts|
    ensures forall i {:trigger r[i]} :: 0 <= i < |parts| ==> r[i] == Text.Trim(parts[i])
  {
    if parts == [] then [] else [Text.Trim(parts[0])] + TrimAll(parts[1..])
  }

  /** The index `find` stops at: the first segment starting with `prefix`,
      or `|segments|` when there is none. */
  function FindPrefixed(segments: seq<string>, prefix: string): (i: nat)
    ensures i <= |segments|
    ensures i < |segments| ==> Text.StartsWith(segments[i], prefix)
    ensures forall j :: 0 <= j < i ==> !Text.StartsWith(segments[j], prefix)
  {
    if segments == [] then 0
    else if Text.StartsWith(segments[0], prefix) then 0
    else 1 + FindPrefixed(segments[1..], prefix)
  }

  /** The value `split("=")[1]` gives for a segment `name=...`: the text after
      the first `=`, cut at the next `=`. */
  function ValueOf(segment: string, name: string): (v: string)
    requires '=' !in name && Text.StartsWith(segment, name + "=")
    ensures '=' !in v
    ensures Text.StartsWith(segment[|name| + 1..], v)
    ensures |v| < |segment| - |name| - 1 ==> segment[|name| + 1 + |v|] == '='
  {
    var rest := segment[|name| + 1..];
    assert Text.Split(segment, '=')[1] == Text.UpTo(rest, '=') by {
      assert segment == name + ['='] + rest;
      Text.SplitFirst(name, rest, '=');
    }
    Text.Split(segment, '=')[1]
  }

  /** `getAuthToken` / `getCsrfCookieFromRequest` for cookie `name`: null
      for a missing or empty header and when no trimmed segment starts
      with `name=`; otherwise the value of the first such segment. */
  function Lookup(header: Option<string>, name: string): (r: Option<string>)
    requires '=' !in name
    ensures r.None? <==> (header.None? || header.value == ""
      || forall i :: 0 <= i < |Segments(header.value)| ==> !Text.StartsWith(Segments(header.value)[i], name + "="))
  {
    if header.None? || header.value == "" then None else Find(Segments(header.value), name)
  }

  /** The value of the first segment that starts with `name=`, if any. */
  function Find(segments: seq<string>, name: string): (r: Option<string>)
    requires '=' !in name
    ensures r.None? <==> forall i :: 0 <= i < |segments| ==> !Text.StartsWith(segments[i], name + "=")
  {
    var i := FindPrefixed(segments, name + "=");
    if i == |segments| then None else Some(ValueOf(segments[i], name))
  }

  predicate NoSpace(s: string) {
    forall i :: 0 <= i < |s| ==> !Text.IsSpace(s[i])
  }

  /** The name and value of one cookie as a browser writes them. */
  predicate PlainPair(name: string, value: string) {
    && name != "" && '=' !in name && ';' !in name && NoSpace(name)
    && '=' !in value && ';' !in value && NoSpace(value)
  }

  /** Characters that never delimit or pad a cookie. */
  predicate SafeChar(c: char) {
    '0' <= c <= '9' || 'a' <= c <= 'z' || c == '.' || c == '-'
  }

  predicate SafeText(s: string) {
    forall i :: 0 <= i < |s| ==> SafeChar(s[i])
  }

  /** A name and value spelled with safe characters form a plain pair. */
  lemma SafePlainPair(name: string, value: string)
    requires name != "" && SafeText(name) && SafeText(value)
    ensures PlainPair(name, value)
  {
    assert forall i :: 0 <= i < |name| ==> !Text.IsSpace(name[i]) && name[i] != '=' && name[i] != ';';
    assert forall i :: 0 <= i < |value| ==> !Text.IsSpace(value[i]) && value[i] != '=' && value[i] != ';';
  }

  /** Safe text concatenated is safe. */
  lemma SafeConcat(a: string, b: string, c: string)
    requires SafeText(a) && SafeText(b) && SafeText(c)
    ensures SafeText(a + b + c)
  {
    var s := a + b + c;
    forall i | 0 <= i < |s| ensures SafeChar(s[i]) {
      if i < |a| {
        assert s[i] == a[i];
      } else if i < |a| + |b| {
        assert s[i] == b[i - |a|];
      } else {
        assert s[i] == c[i - |a| - |b|];
      }
    }
  }
  /** The segments of a header are those of its first `;`-piece followed
      by those of the rest. */
  lemma SegmentsFirst(first: string, rest: string)
    requires ';' !in first
    ensures Segments(first + ";" + rest) == [Text.Trim(first)] + Segments(rest)
  {
    assert first + ";" + rest == first + [';'] + rest;
    Text.SplitFirst(first, rest, ';');
    var parts := [first] + Text.Split(rest, ';');
    assert parts[1..] == Text.Split(rest, ';');
  }

  /** Text without `;` is one segment. */
  lemma SegmentsSingle(s: string)
    requires ';' !in s
    ensures Segments(s) == [Text.Trim(s)]
  {
    Text.SplitWithout(s, ';');
  }

  /** `name=value` is read back as `value`. */
  lemma ValueOfPlain(name: string, value: string)
    requires PlainPair(name, value)
    ensures Text.StartsWith(name + "=" + value, name + "=")
    ensures ValueOf(name + "=" + value, name) == value
  {
    var segment := name + "=" + value;
    assert segment[..|name| + 1] == name + "=";
    assert segment[|name| + 1..] == value;
    assert segment == name + ['='] + value;
    Text.SplitFirst(name, value, '=');
    Text.SplitWithout(value, '=');
  }

  /** When the first segment is the cookie, its value is the result. */
  lemma LookupAtFirst(header: string, name: string)
    requires '=' !in name && header != ""
    requires Text.StartsWith(Segments(header)[0], name + "=")
    ensures Lookup(Some(header), name) == Some(ValueOf(Segments(header)[0], name))
  {
  }

  /** A header whose first cookie is `name=value` yields `value`, whatever
      cookies follow it. */
  lemma LookupFirst(name: string, value: string, tail: string)
    requires PlainPair(name, value)
    requires tail == "" || tail[0] == ';'
    ensures Lookup(Some(name + "=" + value + tail), name) == Some(value)
  {
    var segment := name + "=" + value;
    var header := segment + tail;
    assert ';' !in segment;
    assert NoSpace(segment);
    assert Text.Trim(segment) == segment;
    if tail == "" {
      assert header == segment;
      SegmentsSingle(segment);
    } else {
      assert header == segment + ";" + tail[1..];
      SegmentsFirst(segment, tail[1..]);
    }
    ValueOfPlain(name, value);
    LookupAtFirst(header, name);
  }

  /** A first segment without the prefix is passed over. */
  lemma FindSkip(segment: string, tail: seq<string>, name: string)
    requires '=' !in name && !Text.StartsWith(segment, name + "=")
    ensures Find([segment] + tail, name) == Find(tail, name)
  {
    var segments := [segment] + tail;
    assert segments[1..] == tail;
    var k := FindPrefixed(tail, name + "=");
    if k < |tail| {
      assert segments[1 + k] == tail[k];
    }
  }

  /** A leading cookie with another name is skipped. */
  lemma LookupSkip(first: string, rest: string, name: string)
    requires '=' !in name && ';' !in first
    requires !Text.StartsWith(Text.Trim(first), name + "=")
    ensures Lookup(Some(first + ";" + rest), name) == Lookup(Some(rest), name)
  {
    assert Lookup(Some(first + ";" + rest), name) == Find(Segments(rest), name) by {
      SegmentsFirst(first, rest);
      FindSkip(Text.Trim(first), Segments(rest), name);
    }
    if rest == "" {
      assert Find(Segments(rest), name) == None by {
        assert Segments(rest) == [""];
        assert !Text.StartsWith("", name + "=");
      }
    }
  }
}
