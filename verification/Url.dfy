/**
 URL parsing and the connection flag built from it. The C locale fixes `tolower`.
 */
module Url {
  import opened Wrappers

  datatype Url = Url(schema: string, host: string, port: string, path: string)

  // ---------- Searching ----------

  /** The first index of `c` in `s`. */
  function FindChar(s: string, c: char): (r: Option<nat>)
    ensures r.None? <==> c !in s
    ensures r.Some? ==> r.value < |s| && s[r.value] == c && c !in s[..r.value]
  {
    if s == [] then None
    else if s[0] == c then Some(0)
    else match FindChar(s[1..], c)
      case None => None
      case Some(i) =>
        assert s[..i + 1] == [s[0]] + s[1..][..i];
        Some(i + 1)
  }

  const SEPARATOR := "://"

  predicate AtSeparator(s: string) {
    |s| >= 3 && s[0] == ':' && s[1] == '/' && s[2] == '/'
  }

  /** The first index at which the schema separator starts in `s`. */
  function FindSeparator(s: string): (r: Option<nat>)
    ensures r.Some? ==> r.value + 3 <= |s| && AtSeparator(s[r.value..])
  {
    if s == [] then None
    else if AtSeparator(s) then Some(0)
    else match FindSeparator(s[1..])
      case None => None
      case Some(i) => Some(i + 1)
  }

  lemma {:induction false} FindCharAfter(a: string, c: char, b: string)
    requires c !in a
    ensures FindChar(a + [c] + b, c) == Some(|a|)
  {
    if a == [] {
      assert a + [c] + b == [c] + b;
    } else {
      assert (a + [c] + b)[1..] == a[1..] + [c] + b;
      FindCharAfter(a[1..], c, b);
    }
  }

  lemma SeparatorCons(a: string, b: string)
    requires a != []
    ensures a + SEPARATOR + b == [a[0]] + (a[1..] + SEPARATOR + b)
    ensures (a + SEPARATOR + b)[1..] == a[1..] + SEPARATOR + b
    ensures AtSeparator(a + SEPARATOR + b) ==> |a| >= 3 && AtSeparator(a)
  {
    var s := a + SEPARATOR + b;
    assert s == [a[0]] + (a[1..] + SEPARATOR + b);
    assert forall i :: 0 <= i < |a| ==> s[i] == a[i];
    assert s[|a|] == ':' && s[|a| + 1] == '/';
  }

  lemma {:induction false} FindSeparatorAfter(a: string, b: string)
    requires FindSeparator(a) == None
    ensures FindSeparator(a + SEPARATOR + b) == Some(|a|)
  {
    var s := a + SEPARATOR + b;
    if a != [] {
      SeparatorCons(a, b);
      FindSeparatorAfter(a[1..], b);
    }
  }

  lemma {:induction false} PrefixHasNoSeparator(s: string)
    requires FindSeparator(s).Some?
    ensures FindSeparator(s[..FindSeparator(s).value]) == None
  {
    var i := FindSeparator(s).value;
    if i > 0 {
      assert s[..i][1..] == s[1..][..i - 1];
      PrefixHasNoSeparator(s[1..]);
    }
  }

  // ---------- Lower case ----------

  function LowerChar(c: char): char {
    if 'A' <= c <= 'Z' then (c as int + 32) as char else c
  }

  function ToLower(s: string): (r: string)
    ensures |r| == |s| && forall i :: 0 <= i < |s| ==> r[i] == LowerChar(s[i])
  {
    if s == [] then [] else [LowerChar(s[0])] + ToLower(s[1..])
  }

  lemma {:induction false} LowerKeepsSeparators(s: string)
    ensures FindSeparator(ToLower(s)) == FindSeparator(s)
  {
    if s != [] {
      assert ToLower(s)[1..] == ToLower(s[1..]);
      assert AtSeparator(ToLower(s)) == AtSeparator(s);
      LowerKeepsSeparators(s[1..]);
    }
  }

  lemma LowerTwice(s: string)
    ensures ToLower(ToLower(s)) == ToLower(s)
  {
  }

  // ---------- Parsing ----------

  function CutFragment(url: string): string {
    match FindChar(url, '#')
    case None => url
    case Some(p) => url[..p]
  }

  function SplitSchema(url: string): (string, string) {
    match FindSeparator(url)
    case None => ("http", url)
    case Some(p) => (ToLower(url[..p]), url[p + 3..])
  }

  function SplitPath(url: string): (string, string) {
    match FindChar(url, '/')
    case None => (url, "/")
    case Some(p) => (url[..p], url[p..])
  }

  function DefaultPort(schema: string): Option<string> {
    if schema == "http" || schema == "ws" then Some("80")
    else if schema == "https" || schema == "wss" then Some("443")
    else None
  }

  function SplitPort(schema: string, authority: string, path: string): Option<Url> {
    match FindChar(authority, ':')
    case Some(p) => Some(Url(schema, authority[..p], authority[p + 1..], path))
    case None =>
      match DefaultPort(schema)
      case None => None
      case Some(port) => Some(Url(schema, authority, port, path))
  }

  function ParseAfterSchema(schema: string, rest: string): Option<Url> {
    var (authority, path) := SplitPath(rest);
    SplitPort(schema, authority, path)
  }

  /** The four parts of a URL, or nothing when it names no port and has no default one. */
  function Parse(url: string): Option<Url> {
    var (schema, rest) := SplitSchema(CutFragment(url));
    ParseAfterSchema(schema, rest)
  }

  /** Parses by cutting one string down, as the program does: first the fragment and the
      schema. */
  method ParseUrl(url: string) returns (r: Option<Url>)
    ensures r == Parse(url)
  {
    var u := url;
    var p := FindChar(u, '#');
    if p.Some? {
      u := u[..p.value];
    }
    assert u == CutFragment(url);
    var schema := "http";
    p := FindSeparator(u);
    if p.Some? {
      schema := ToLower(u[..p.value]);
      u := u[p.value + 3..];
    }
    r := ParseRest(schema, u);
  }

  /** Then the path and the port. */
  method ParseRest(schema: string, rest: string) returns (r: Option<Url>)
    ensures r == ParseAfterSchema(schema, rest)
    ensures ':' !in rest && (schema == "http" || schema == "ws") ==> r.Some? && r.value.port == "80"
    ensures ':' !in rest && (schema == "https" || schema == "wss") ==> r.Some? && r.value.port == "443"
    ensures ':' !in rest && r.None? ==> schema != "http" && schema != "ws" && schema != "https" && schema != "wss"
    ensures ':' in rest && '/' !in rest ==> r.Some?
  {
    var u := rest;
    var p := FindChar(u, '/');
    var path := "/";
    if p.Some? {
      path := u[p.value..];
      u := u[..p.value];
    }
    assert SplitPath(rest) == (u, path);
    p := FindChar(u, ':');
    if p.Some? {
      return Some(Url(schema, u[..p.value], u[p.value + 1..], path));
    }
    var port := DefaultPort(schema);
    if port.None? {
      return None;
    }
    r := Some(Url(schema, u, port.value, path));
  }

  // ---------- The normal form ----------

  /** The flag a connection is pooled under. */
  function Flag(u: Url): string {
    u.schema + SEPARATOR + (u.host + [':'] + u.port)
  }

  function Print(u: Url): string {
    Flag(u) + u.path
  }

  predicate Clean(s: string) {
    '#' !in s
  }

  /** The parts a parse can return. */
  predicate Canonical(u: Url) {
    && FindSeparator(u.schema) == None && ToLower(u.schema) == u.schema && Clean(u.schema)
    && Clean(u.host) && '/' !in u.host && ':' !in u.host
    && Clean(u.port) && '/' !in u.port
    && u.path != [] && u.path[0] == '/' && Clean(u.path)
  }

  lemma SchemaPart(url: string)
    requires Clean(url)
    ensures var (schema, rest) := SplitSchema(url);
            FindSeparator(schema) == None && ToLower(schema) == schema && Clean(schema) && Clean(rest)
  {
    match FindSeparator(url)
    case None =>
      assert ToLower("http") == "http";
    case Some(p) =>
      PrefixHasNoSeparator(url);
      LowerKeepsSeparators(url[..p]);
      LowerTwice(url[..p]);
      var schema := ToLower(url[..p]);
      assert forall i :: 0 <= i < |schema| ==> schema[i] == LowerChar(url[..p][i]) && url[..p][i] in url;
  }

  lemma PathPart(rest: string)
    requires Clean(rest)
    ensures var (authority, path) := SplitPath(rest);
            '/' !in authority && path != [] && path[0] == '/' && Clean(authority) && Clean(path)
  {
  }

  lemma PortPart(schema: string, authority: string, path: string)
    requires '/' !in authority && Clean(authority) && SplitPort(schema, authority, path).Some?
    ensures var u := SplitPort(schema, authority, path).value;
            && u.schema == schema && u.path == path
            && Clean(u.host) && '/' !in u.host && ':' !in u.host && Clean(u.port) && '/' !in u.port
  {
  }

  lemma ParseIsCanonical(url: string)
    requires Parse(url).Some?
    ensures Canonical(Parse(url).value)
  {
    var cut := CutFragment(url);
    SchemaPart(cut);
    var (schema, rest) := SplitSchema(cut);
    PathPart(rest);
    var (authority, path) := SplitPath(rest);
    PortPart(schema, authority, path);
  }

  lemma SchemaSplits(schema: string, rest: string)
    requires FindSeparator(schema) == None
    ensures SplitSchema(schema + SEPARATOR + rest) == (ToLower(schema), rest)
  {
    FindSeparatorAfter(schema, rest);
    var s := schema + SEPARATOR + rest;
    assert s[..|schema|] == schema && s[|schema| + 3..] == rest;
  }

  lemma SchemaBack(schema: string, rest: string)
    requires FindSeparator(schema) == None && ToLower(schema) == schema
    ensures SplitSchema(schema + SEPARATOR + rest) == (schema, rest)
  {
    SchemaSplits(schema, rest);
  }

  lemma PathBack(authority: string, path: string)
    requires '/' !in authority && path != [] && path[0] == '/'
    ensures SplitPath(authority + path) == (authority, path)
  {
    assert authority + path == authority + ['/'] + path[1..];
    FindCharAfter(authority, '/', path[1..]);
    assert (authority + path)[..|authority|] == authority && (authority + path)[|authority|..] == path;
  }

  lemma PortBack(u: Url)
    requires ':' !in u.host
    ensures SplitPort(u.schema, u.host + [':'] + u.port, u.path) == Some(u)
  {
    FindCharAfter(u.host, ':', u.port);
    var a := u.host + [':'] + u.port;
    assert a[..|u.host|] == u.host && a[|u.host| + 1..] == u.port;
  }

  lemma PrintParses(u: Url)
    requires Canonical(u)
    ensures Parse(Print(u)) == Some(u)
  {
    var authority := u.host + [':'] + u.port;
    assert Clean(Print(u)) && CutFragment(Print(u)) == Print(u);
    assert Print(u) == u.schema + SEPARATOR + (authority + u.path);
    SchemaBack(u.schema, authority + u.path);
    PathBack(authority, u.path);
    PortBack(u);
  }

  /** Parsing reaches a normal form: the printed parts of any accepted string parse to the
      same parts. */
  lemma NormalForm(url: string)
    requires Parse(url).Some?
    ensures Parse(Print(Parse(url).value)) == Parse(url)
  {
    ParseIsCanonical(url);
    PrintParses(Parse(url).value);
  }

  /** Exactly the parts that some string parses to. */
  lemma ParseImage(u: Url)
    ensures (exists url :: Parse(url) == Some(u)) <==> Canonical(u)
  {
    if Canonical(u) {
      PrintParses(u);
    }
    if url :| Parse(url) == Some(u) {
      ParseIsCanonical(url);
    }
  }

  lemma NoPath(authority: string)
    requires '/' !in authority
    ensures SplitPath(authority) == (authority, "/")
  {
  }

  /** A flag is itself a URL, with the same schema, host and port. */
  lemma FlagParses(u: Url)
    requires Canonical(u)
    ensures Parse(Flag(u)) == Some(u.(path := "/"))
  {
    var authority := u.host + [':'] + u.port;
    assert Clean(Flag(u)) && CutFragment(Flag(u)) == Flag(u);
    assert Flag(u) == u.schema + SEPARATOR + authority;
    SchemaBack(u.schema, authority);
    NoPath(authority);
    PortBack(u.(path := "/"));
  }

  /** Two parsed URLs share a connection flag exactly when they agree on schema, host and port. */
  lemma FlagIsFaithful(a: string, b: string)
    requires Parse(a).Some? && Parse(b).Some?
    ensures var (u, v) := (Parse(a).value, Parse(b).value);
            Flag(u) == Flag(v) <==> u.schema == v.schema && u.host == v.host && u.port == v.port
  {
    ParseIsCanonical(a);
    ParseIsCanonical(b);
    FlagParses(Parse(a).value);
    FlagParses(Parse(b).value);
  }

  // ---------- Every form of a URL ----------

  predicate SeparatorAt(s: string, i: nat) {
    i + 3 <= |s| && s[i] == ':' && s[i + 1] == '/' && s[i + 2] == '/'
  }

  predicate HasSeparator(s: string) {
    exists i :: 0 <= i < |s| && SeparatorAt(s, i)
  }

  lemma {:induction false} FindsSeparatorExactly(s: string)
    ensures FindSeparator(s).Some? <==> HasSeparator(s)
  {
    if s != "" {
      var t := s[1..];
      FindsSeparatorExactly(t);
      if i :| 0 <= i < |t| && SeparatorAt(t, i) {
        assert SeparatorAt(s, i + 1);
      }
      if i :| 0 <= i < |s| && SeparatorAt(s, i) {
        assert if i == 0 then AtSeparator(s) else SeparatorAt(t, i - 1);
      }
      assert AtSeparator(s) ==> SeparatorAt(s, 0);
    }
  }

  /** Whether `lower` is `s` with the letters A to Z made lower case. */
  predicate LowerCased(lower: string, s: string) {
    && |lower| == |s|
    && forall i :: 0 <= i < |s| ==> lower[i] == if 'A' <= s[i] <= 'Z' then s[i] - 'A' + 'a' else s[i]
  }

  lemma ToLowerIs(lower: string, s: string)
    requires LowerCased(lower, s)
    ensures ToLower(s) == lower
  {
  }

  /** What follows the authority: nothing or a path, which begins with '/'. */
  predicate IsPath(path: string) {
    Clean(path) && (path != "" ==> path[0] == '/')
  }

  lemma AuthorityAndPath(authority: string, path: string)
    requires '/' !in authority && IsPath(path)
    ensures SplitPath(authority + path) == (authority, if path == "" then "/" else path)
  {
    if path == "" {
      assert authority + path == authority;
      NoPath(authority);
    } else {
      PathBack(authority, path);
    }
  }

  lemma CleanUncut(url: string)
    requires Clean(url)
    ensures CutFragment(url) == url
  {
  }

  lemma SchemaAndRest(schema: string, lower: string, rest: string)
    requires Clean(schema) && !HasSeparator(schema) && LowerCased(lower, schema) && Clean(rest)
    ensures Parse(schema + "://" + rest) == ParseAfterSchema(lower, rest)
  {
    FindsSeparatorExactly(schema);
    ToLowerIs(lower, schema);
    SchemaSplits(schema, rest);
    CleanUncut(schema + SEPARATOR + rest);
  }

  /** A URL without a port: "http" and "ws" stand for port 80, "https" and "wss" for 443, in any
      case of their letters, and any other schema is an error. */
  lemma PortOmitted(schema: string, lower: string, host: string, path: string)
    requires Clean(schema) && !HasSeparator(schema) && LowerCased(lower, schema)
    requires Clean(host) && '/' !in host && ':' !in host && IsPath(path)
    ensures var p := if path == "" then "/" else path;
            Parse(schema + "://" + (host + path)) ==
            if lower == "http" || lower == "ws" then Some(Url(lower, host, "80", p))
            else if lower == "https" || lower == "wss" then Some(Url(lower, host, "443", p))
            else None
  {
    SchemaAndRest(schema, lower, host + path);
    AuthorityAndPath(host, path);
  }

  /** A URL with a port: the host ends at the first ':', and any schema will do. */
  lemma PortGiven(schema: string, lower: string, host: string, port: string, path: string)
    requires Clean(schema) && !HasSeparator(schema) && LowerCased(lower, schema)
    requires Clean(host) && '/' !in host && ':' !in host && Clean(port) && '/' !in port && IsPath(path)
    ensures Parse(schema + "://" + (host + ":" + port + path)) ==
            Some(Url(lower, host, port, if path == "" then "/" else path))
  {
    var authority := host + [':'] + port;
    assert host + ":" + port == authority;
    SchemaAndRest(schema, lower, authority + path);
    AuthorityAndPath(authority, path);
    PortBack(Url(lower, host, port, if path == "" then "/" else path));
  }

  /** A missing schema means "http". */
  lemma SchemaOmitted(rest: string)
    requires Clean(rest) && !HasSeparator(rest)
    ensures Parse(rest) == Parse("http://" + rest)
  {
    FindsSeparatorExactly(rest);
    assert CutFragment(rest) == rest;
    assert "http://" + rest == "http" + "://" + rest;
    SchemaAndRest("http", "http", rest);
  }

  /** A fragment does not count. */
  lemma FragmentIgnored(url: string, fragment: string)
    requires Clean(url)
    ensures Parse(url + "#" + fragment) == Parse(url)
  {
    FindCharAfter(url, '#', fragment);
    assert (url + ['#'] + fragment)[..|url|] == url;
  }
}
