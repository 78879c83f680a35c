/**
 The request target built by `http_client.cpp`: percent-encoding, the query string of a sorted map, and the split
 of an https URL. Characters are bytes.
 */
module HttpClient {
  import opened Bits
  import opened Wrappers

  type Char8 = c: char | c as int < 256 witness 'a'
  type Text = seq<Char8>

  // ----- percent-encoding -----

  const HEX: seq<Char8> := ['0', '1', '2', '3', '4', '5', '6', '7', '8', '9', 'A', 'B', 'C', 'D', 'E', 'F']

  predicate Unreserved(c: Char8) {
    'a' <= c <= 'z' || 'A' <= c <= 'Z' || '0' <= c <= '9' || c == '_' || c == '-' || c == '.' || c == '~'
  }

  function EncodeChar(c: Char8): Text {
    if Unreserved(c) then [c] else ['%', HEX[c as int / 16], HEX[c as int % 16]]
  }

  function Encode(s: Text): Text {
    if s == [] then [] else Encode(s[..|s| - 1]) + EncodeChar(s[|s| - 1])
  }

  function HexValue(c: Char8): int {
    if '0' <= c <= '9' then c as int - '0' as int
    else if 'A' <= c <= 'F' then c as int - 'A' as int + 10
    else if 'a' <= c <= 'f' then c as int - 'a' as int + 10
    else -1
  }

  predicate IsEscape(s: Text) {
    |s| >= 3 && s[0] == '%' && HexValue(s[1]) >= 0 && HexValue(s[2]) >= 0
  }

  /** Section 2.1 of RFC 3986: each "%" followed by two hexadecimal digits stands for one octet. */
  function Decode(s: Text): Text {
    if s == [] then []
    else if IsEscape(s) then [(16 * HexValue(s[1]) + HexValue(s[2])) as char] + Decode(s[3..])
    else [s[0]] + Decode(s[1..])
  }

  method UrlEncode(s: Text) returns (out: Text)
    ensures out == Encode(s)
  {
    out := [];
    for i := 0 to |s|
      invariant out == Encode(s[..i])
    {
      assert s[..i + 1][..i] == s[..i];
      var c := s[i];
      if Unreserved(c) {
        out := out + [c];
      } else {
        Nibbles(c);
        out := out + ['%', HEX[Shr(c as int, 4)], HEX[And(c as int, 15)]];
      }
    }
    assert s[..|s|] == s;
  }

  lemma Nibbles(c: Char8)
    ensures Shr(c as int, 4) == c as int / 16 && And(c as int, 15) == c as int % 16
  {
    SmallPowers();
    ShrIsDivision(c as int, 4);
    AndMask(c as int, 4);
  }

  /** The octets that stand for themselves are A-Z, a-z, 0-9, '-', '.', '_' and '~'; any other is '%' and two digits. */
  lemma EncodedOctet(c: Char8)
    ensures
      var n := c as int;
      if 65 <= n <= 90 || 97 <= n <= 122 || 48 <= n <= 57 || n == 45 || n == 46 || n == 95 || n == 126
      then Encode([c]) == [c]
      else Encode([c]) == ['%', "0123456789ABCDEF"[n / 16], "0123456789ABCDEF"[n % 16]]
  {
    assert [c][..0] == [];
  }

  lemma {:induction false} EncodeConcat(a: Text, b: Text)
    ensures Encode(a + b) == Encode(a) + Encode(b)
  {
    if b == [] {
      assert a + b == a;
    } else {
      var n := |b| - 1;
      EncodeConcat(a, b[..n]);
      assert (a + b)[..|a + b| - 1] == a + b[..n];
      Associative(Encode(a), Encode(b[..n]), EncodeChar(b[n]));
    }
  }

  lemma {:induction false} EncodeFirst(s: Text)
    requires s != []
    ensures Encode(s) == EncodeChar(s[0]) + Encode(s[1..])
  {
    var n := |s| - 1;
    if n == 0 {
      assert s[..0] == [] && s[1..] == [];
    } else {
      var middle := s[1..n];
      EncodeFirst(s[..n]);
      assert s[..n][1..] == middle && s[1..][..n - 1] == middle;
      Associative(EncodeChar(s[0]), Encode(middle), EncodeChar(s[n]));
    }
  }

  /** Decoding undoes encoding, for every text. */
  lemma {:induction false} DecodeInvertsEncode(s: Text)
    ensures Decode(Encode(s)) == s
  {
    if s != [] {
      EncodeFirst(s);
      DecodeInvertsEncode(s[1..]);
      DecodeFirst(s[0], Encode(s[1..]));
      assert [s[0]] + s[1..] == s;
    }
  }

  lemma DecodeFirst(c: Char8, rest: Text)
    ensures Decode(EncodeChar(c) + rest) == [c] + Decode(rest)
  {
    if Unreserved(c) {
      assert ([c] + rest)[1..] == rest;
    } else {
      HexDigits(c);
      var all := ['%', HEX[c as int / 16], HEX[c as int % 16]] + rest;
      assert all[3..] == rest;
      assert IsEscape(all);
    }
  }

  lemma HexDigits(c: Char8)
    ensures HexValue(HEX[c as int / 16]) == c as int / 16 && HexValue(HEX[c as int % 16]) == c as int % 16
  {
  }

  /** An encoded text consists of unreserved characters and "%" only. */
  lemma {:induction false} EncodedAlphabet(s: Text)
    ensures forall i :: 0 <= i < |Encode(s)| ==> Unreserved(Encode(s)[i]) || Encode(s)[i] == '%'
  {
    if s != [] {
      EncodedAlphabet(s[..|s| - 1]);
    }
  }

  // ----- splitting -----

  /** Position of the first c, or the length. */
  function Find(s: Text, c: Char8): (i: nat)
    ensures i <= |s| && (i < |s| ==> s[i] == c) && forall k :: 0 <= k < i ==> s[k] != c
  {
    if s == [] || s[0] == c then 0 else 1 + Find(s[1..], c)
  }

  lemma FindAfter(a: Text, c: Char8, b: Text)
    requires forall k :: 0 <= k < |a| ==> a[k] != c
    ensures Find(a + [c] + b, c) == |a|
    ensures Find(a, c) == |a|
    ensures (a + [c] + b)[..|a|] == a && (a + [c] + b)[|a| + 1..] == b
  {
    var s := a + [c] + b;
    assert s[|a|] == c;
    assert forall k :: 0 <= k < |a| ==> s[k] == a[k];
  }

  type Entry = (Text, Text)

  function PairText(e: Entry): Text {
    Encode(e.0) + ['='] + Encode(e.1)
  }

  function Join(entries: seq<Entry>): Text {
    if entries == [] then []
    else if |entries| == 1 then PairText(entries[0])
    else PairText(entries[0]) + ['&'] + Join(entries[1..])
  }

  function ParsePair(s: Text): Entry {
    var i := Find(s, '=');
    (Decode(s[..i]), if i < |s| then Decode(s[i + 1..]) else [])
  }

  /** A query string read back: pairs between "&", each split at its first "=". */
  function ParseQuery(s: Text): seq<Entry>
    decreases |s|
  {
    var i := Find(s, '&');
    if s == [] then []
    else if i == |s| then [ParsePair(s)]
    else [ParsePair(s[..i])] + ParseQuery(s[i + 1..])
  }

  lemma NoDelimiters(s: Text)
    ensures forall k :: 0 <= k < |Encode(s)| ==> Encode(s)[k] != '&' && Encode(s)[k] != '='
  {
    EncodedAlphabet(s);
  }

  lemma PairRoundTrip(e: Entry)
    ensures ParsePair(PairText(e)) == e
    ensures forall k :: 0 <= k < |PairText(e)| ==> PairText(e)[k] != '&'
  {
    NoDelimiters(e.0);
    NoDelimiters(e.1);
    var a, b := Encode(e.0), Encode(e.1);
    FindAfter(a, '=', b);
    DecodeInvertsEncode(e.0);
    DecodeInvertsEncode(e.1);
  }

  /** Reading back what was joined gives the entries, in order. */
  lemma {:induction false} ParseInvertsJoin(entries: seq<Entry>)
    ensures ParseQuery(Join(entries)) == entries
    ensures entries != [] ==> Join(entries) != []
  {
    if entries != [] {
      PairRoundTrip(entries[0]);
      var first := PairText(entries[0]);
      if |entries| == 1 {
        FindAfter(first, '&', []);
      } else {
        ParseInvertsJoin(entries[1..]);
        FindAfter(first, '&', Join(entries[1..]));
      }
    }
  }

  lemma {:induction false} JoinAppend(entries: seq<Entry>, e: Entry)
    ensures Join(entries + [e]) == if entries == [] then PairText(e) else Join(entries) + ['&'] + PairText(e)
  {
    if entries == [] {
      assert entries + [e] == [e];
    } else {
      var first, rest := PairText(entries[0]), entries[1..];
      JoinAppend(rest, e);
      assert (entries + [e])[1..] == rest + [e];
      if rest != [] {
        Associative(first + ['&'], Join(rest) + ['&'], PairText(e));
        Associative(first + ['&'], Join(rest), ['&']);
      }
    }
  }

  // ----- the order of std::map -----

  predicate Less(a: Text, b: Text) {
    b != [] && (a == [] || a[0] < b[0] || (a[0] == b[0] && Less(a[1..], b[1..])))
  }

  lemma {:induction false} LessTransitive(a: Text, b: Text, c: Text)
    requires Less(a, b) && Less(b, c)
    ensures Less(a, c)
  {
    if a != [] && a[0] == b[0] && b[0] == c[0] {
      LessTransitive(a[1..], b[1..], c[1..]);
    }
  }

  lemma {:induction false} LessTotal(a: Text, b: Text)
    ensures a != b ==> Less(a, b) || Less(b, a)
    ensures !(Less(a, b) && Less(b, a))
    ensures Less(a, b) ==> a != b
  {
    if a != [] && b != [] && a[0] == b[0] {
      LessTotal(a[1..], b[1..]);
      assert a == [a[0]] + a[1..] && b == [b[0]] + b[1..];
    }
  }

  ghost predicate IsLeast(k: Text, keys: set<Text>) {
    k in keys && forall x :: x in keys && x != k ==> Less(k, x)
  }

  lemma {:induction false} LeastExists(keys: set<Text>)
    requires keys != {}
    ensures exists k :: IsLeast(k, keys)
    decreases |keys|
  {
    var x :| x in keys;
    var rest := keys - {x};
    if rest == {} {
      assert keys == {x};
      assert IsLeast(x, keys);
    } else {
      LeastExists(rest);
      var k :| IsLeast(k, rest);
      LessTotal(x, k);
      if Less(x, k) {
        forall y | y in keys && y != x
          ensures Less(x, y)
        {
          if y != k {
            LessTransitive(x, k, y);
          }
        }
        assert IsLeast(x, keys);
      } else {
        assert IsLeast(k, keys);
      }
    }
  }

  lemma LeastUnique(a: Text, b: Text, keys: set<Text>)
    requires IsLeast(a, keys) && IsLeast(b, keys)
    ensures a == b
  {
    LessTotal(a, b);
  }

  ghost function Least(keys: set<Text>): (k: Text)
    requires keys != {}
    ensures IsLeast(k, keys)
  {
    LeastExists(keys);
    var k :| IsLeast(k, keys);
    k
  }

  /** The entries of the map in ascending key order. */
  ghost function Ascending(q: map<Text, Text>): (r: seq<Entry>)
    decreases |q.Keys|
  {
    if q == map[] then []
    else
      var k := Least(q.Keys);
      var rest := q - {k};
      assert rest.Keys == q.Keys - {k};
      [(k, q[k])] + Ascending(rest)
  }

  function AsMap(entries: seq<Entry>): map<Text, Text> {
    if entries == [] then map[] else AsMap(entries[1..])[entries[0].0 := entries[0].1]
  }

  lemma {:induction false} AscendingIsTheMap(q: map<Text, Text>)
    ensures AsMap(Ascending(q)) == q
    ensures q != map[] ==> Ascending(q) != []
    decreases |q.Keys|
  {
    if q != map[] {
      var k := Least(q.Keys);
      var rest := q - {k};
      assert rest.Keys == q.Keys - {k};
      AscendingIsTheMap(rest);
      assert Ascending(q)[1..] == Ascending(rest);
      assert rest[k := q[k]] == q;
    }
  }

  /** k comes before l: at the first octet where they differ it has the smaller one, or it is a proper prefix. */
  ghost predicate Before(k: Text, l: Text) {
    exists n: nat :: DiffersAt(k, l, n)
  }

  ghost predicate DiffersAt(k: Text, l: Text, n: nat) {
    n <= |k| && n < |l| && k[..n] == l[..n] && (n == |k| || k[n] as int < l[n] as int)
  }

  lemma {:induction false} LessIsBefore(a: Text, b: Text)
    requires Less(a, b)
    ensures Before(a, b)
  {
    if a == [] || a[0] < b[0] {
      assert DiffersAt(a, b, 0);
    } else {
      LessIsBefore(a[1..], b[1..]);
      var n: nat :| DiffersAt(a[1..], b[1..], n);
      assert a[..n + 1] == [a[0]] + a[1..][..n] && b[..n + 1] == [b[0]] + b[1..][..n];
      assert DiffersAt(a, b, n + 1);
    }
  }

  /** The entries are those of the map, each key once, in ascending order of octets. */
  lemma {:induction false} AscendingOrder(q: map<Text, Text>)
    ensures forall e :: e in Ascending(q) <==> e.0 in q && e.1 == q[e.0]
    ensures forall i, j :: 0 <= i < j < |Ascending(q)| ==> Before(Ascending(q)[i].0, Ascending(q)[j].0)
    decreases |q.Keys|
  {
    if q != map[] {
      var k := Least(q.Keys);
      var rest := q - {k};
      assert rest.Keys == q.Keys - {k};
      AscendingOrder(rest);
      var all, tail := Ascending(q), Ascending(rest);
      assert all == [(k, q[k])] + tail;
      forall i, j | 0 <= i < j < |all|
        ensures Before(all[i].0, all[j].0)
      {
        assert all[j] == tail[j - 1] && tail[j - 1] in tail;
        if i == 0 {
          LessIsBefore(k, all[j].0);
        } else {
          assert all[i] == tail[i - 1];
        }
      }
    }
  }

  ghost function QueryString(q: map<Text, Text>): Text {
    Join(Ascending(q))
  }

  /** The loop over the sorted map. */
  method BuildQueryString(q: map<Text, Text>) returns (out: Text)
    ensures out == QueryString(q)
  {
    out := [];
    if q == map[] {
      return;
    }
    var rest := q;
    ghost var done: seq<Entry> := [];
    var first := true;
    while rest != map[]
      invariant Ascending(q) == done + Ascending(rest)
      invariant out == Join(done) && first == (done == [])
      decreases |rest.Keys|
    {
      LeastExists(rest.Keys);
      var k :| k in rest.Keys && forall x :: x in rest.Keys && x != k ==> Less(k, x);
      AscendingStep(rest, k, done);
      JoinAppend(done, (k, rest[k]));
      if !first {
        out := out + ['&'];
      }
      first := false;
      var pair := EncodePair((k, rest[k]));
      out := out + pair;
      done := done + [(k, rest[k])];
      rest := rest - {k};
    }
    assert done + [] == done;
  }

  method EncodePair(e: Entry) returns (out: Text)
    ensures out == PairText(e)
  {
    var key := UrlEncode(e.0);
    var value := UrlEncode(e.1);
    out := key + ['='] + value;
  }

  lemma AscendingStep(rest: map<Text, Text>, k: Text, done: seq<Entry>)
    requires rest != map[] && IsLeast(k, rest.Keys)
    ensures done + Ascending(rest) == done + [(k, rest[k])] + Ascending(rest - {k})
    ensures |(rest - {k}).Keys| < |rest.Keys|
  {
    LeastUnique(k, Least(rest.Keys), rest.Keys);
    assert (rest - {k}).Keys == rest.Keys - {k};
  }

  // ----- the URL -----

  const SCHEME: Text := ['h', 't', 't', 'p', 's', ':', '/', '/']
  const DEFAULT_PORT: Text := ['4', '4', '3']

  datatype UrlParts = UrlParts(host: Text, port: Text, target: Text)

  function Authority(rest: Text): Text {
    rest[..Find(rest, '/')]
  }

  function Path(rest: Text): Text {
    if Find(rest, '/') == |rest| then ['/'] else rest[Find(rest, '/')..]
  }

  function Host(authority: Text): Text {
    authority[..Find(authority, ':')]
  }

  function Port(authority: Text): Text {
    var colon := Find(authority, ':');
    if colon + 1 >= |authority| then DEFAULT_PORT else authority[colon + 1..]
  }

  function Separator(path: Text): Text {
    if Find(path, '?') == |path| then ['?'] else ['&']
  }

  ghost function Target(path: Text, q: map<Text, Text>): Text {
    if q == map[] then path else path + Separator(path) + QueryString(q)
  }

  ghost function Parts(rest: Text, q: map<Text, Text>): UrlParts {
    UrlParts(Host(Authority(rest)), Port(Authority(rest)), Target(Path(rest), q))
  }

  method ParseHttpsUrl(url: Text, q: map<Text, Text>) returns (r: Result<UrlParts>)
    ensures r.Ok? <==> "https://" <= url
    ensures r.Err? ==> r == Err("HTTPClient: only https:// URLs supported")
    ensures r.Ok? ==> r.value == Parts(url[8..], q)
  {
    if !(SCHEME <= url) {
      return Err("HTTPClient: only https:// URLs supported");
    }
    var rest := url[|SCHEME|..];
    var parts := SplitRest(rest, q);
    return Ok(parts);
  }

  method SplitRest(rest: Text, q: map<Text, Text>) returns (parts: UrlParts)
    ensures parts == Parts(rest, q)
  {
    var slash := Find(rest, '/');
    var hostport := if slash == |rest| then rest else rest[..slash];
    var path := if slash == |rest| then ['/'] else rest[slash..];
    assert hostport == Authority(rest) && path == Path(rest);
    var host, port := SplitAuthority(hostport);
    var target := MergeQuery(path, q);
    parts := UrlParts(host, port, target);
  }

  method SplitAuthority(hostport: Text) returns (host: Text, port: Text)
    ensures host == Host(hostport) && port == Port(hostport)
  {
    host, port := hostport, DEFAULT_PORT;
    var colon := Find(hostport, ':');
    if colon != |hostport| {
      host := hostport[..colon];
      port := hostport[colon + 1..];
      if port == [] {
        port := DEFAULT_PORT;
      }
    }
  }

  method MergeQuery(path: Text, q: map<Text, Text>) returns (target: Text)
    ensures target == Target(path, q)
  {
    var qs := BuildQueryString(q);
    EmptyQuery(q);
    if qs == [] {
      return path;
    }
    Associative(path, Separator(path), qs);
    if Find(path, '?') == |path| {
      target := path + (['?'] + qs);
    } else {
      target := path + (['&'] + qs);
    }
  }

  lemma EmptyQuery(q: map<Text, Text>)
    ensures QueryString(q) == [] <==> q == map[]
  {
    AscendingIsTheMap(q);
    ParseInvertsJoin(Ascending(q));
  }

  /** The parts are the URL: put together again they give it back. */
  lemma UrlReassembles(rest: Text)
    ensures
      var authority := Authority(rest);
      && (rest == authority + Path(rest) || (rest == authority && Path(rest) == ['/']))
      && Path(rest)[0] == '/'
      && '/' !in authority && ':' !in Host(authority)
      && (|| (authority == Host(authority) && Port(authority) == "443")
          || (authority == Host(authority) + [':'] && Port(authority) == "443")
          || (authority == Host(authority) + [':'] + Port(authority) && Port(authority) != []))
  {
    var authority := Authority(rest);
    var colon := Find(authority, ':');
    if colon < |authority| {
      assert authority == authority[..colon] + [':'] + authority[colon + 1..];
    }
  }

  /**
   For every accepted URL and every map: what is appended after the original path and the separator reads back as
   exactly that map, and two different maps give two different targets.
   */
  lemma QueryRoundTrip(path: Text, q: map<Text, Text>)
    ensures path <= Target(path, q)
    ensures
      var added := Target(path, q)[|path|..];
      if q == map[] then added == []
      else added != [] && added[0] == (if '?' in path then '&' else '?') && AsMap(ParseQuery(added[1..])) == q
  {
    AscendingIsTheMap(q);
    ParseInvertsJoin(Ascending(q));
    if q != map[] {
      AddedText(path, Separator(path), QueryString(q));
    }
  }

  lemma AddedText(path: Text, separator: Text, text: Text)
    requires |separator| == 1
    ensures path <= path + separator + text
    ensures (path + separator + text)[|path|..] == separator + text
    ensures (separator + text)[..1] == separator && (separator + text)[1..] == text
  {
  }

  lemma DistinctMapsDistinctTargets(path: Text, a: map<Text, Text>, b: map<Text, Text>)
    ensures Target(path, a) == Target(path, b) <==> a == b
  {
    QueryRoundTrip(path, a);
    QueryRoundTrip(path, b);
  }
}
