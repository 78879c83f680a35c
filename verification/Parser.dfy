/**
 `Parser::parse_ltp` on a JSON tree. The library conversions between JSON numbers, doubles and text are
 parameters; which value they are applied to, and in which order of keys, is what this module is about.
 */
module Parser {
  import opened Wrappers

  type Token = string

  /** Bit pattern of a double; nothing is computed with it. */
  type Price = int

  /** `time` is in milliseconds since the epoch. */
  datatype Ltp = Ltp(token: Token, price: Price, time: int)

  datatype Json =
    | Null
    | Boolean(b: bool)
    | Integer(i: int)
    | Float(text: string)
    | Text(s: string)
    | Array(elems: seq<Json>)
    | Object(fields: map<string, Json>)

  datatype Library = Library(
    decode: string -> Option<Json>,
    dumpInteger: int -> string,
    dumpFloat: string -> string,
    integerPrice: int -> Price,
    floatPrice: string -> Price,
    stod: string -> Option<Price>,
    floatTime: string -> int,
    stoll: string -> Option<int>)

  const TOKEN_KEYS: seq<string> := ["token", "symbol", "tradingsymbol", "instrument_token", "tokenID"]
  const PRICE_KEYS: seq<string> := ["ltp", "last_price", "lastPrice", "price", "trade_price"]
  const TS_KEYS: seq<string> := ["exchange_timestamp", "timestamp", "ts", "time", "epoch"]

  // ----- values a key may hold -----

  function ReadString(lib: Library, v: Json): Option<string> {
    match v
    case Text(s) => Some(s)
    case Integer(i) => Some(lib.dumpInteger(i))
    case Float(text) => Some(lib.dumpFloat(text))
    case _ => None
  }

  function ReadNumber(lib: Library, v: Json): Option<Price> {
    match v
    case Float(text) => Some(lib.floatPrice(text))
    case Integer(i) => Some(lib.integerPrice(i))
    case Text(s) => lib.stod(s)
    case _ => None
  }

  function ReadTime(lib: Library, v: Json): Option<int> {
    match v
    case Integer(i) => Some(i)
    case Float(text) => Some(lib.floatTime(text))
    case Text(s) => lib.stoll(s)
    case _ => None
  }

  function Strings(lib: Library): Json -> Option<string> {
    v => ReadString(lib, v)
  }

  function Numbers(lib: Library): Json -> Option<Price> {
    v => ReadNumber(lib, v)
  }

  function Times(lib: Library): Json -> Option<int> {
    v => ReadTime(lib, v)
  }

  predicate Contains(j: Json, key: string) {
    j.Object? && key in j.fields
  }

  function ReadKey<T>(j: Json, key: string, read: Json -> Option<T>): Option<T> {
    if Contains(j, key) then read(j.fields[key]) else None
  }

  /** `out` is what the earliest readable key holds. */
  ghost predicate IsFirstReadable<T(!new)>(j: Json, keys: seq<string>, read: Json -> Option<T>, out: Option<T>) {
    if out.Some? then
      exists i ::
        0 <= i < |keys| && ReadKey(j, keys[i], read) == out && forall h :: 0 <= h < i ==> ReadKey(j, keys[h], read).None?
    else
      forall h :: 0 <= h < |keys| ==> ReadKey(j, keys[h], read).None?
  }

  function FirstReadable<T>(j: Json, keys: seq<string>, read: Json -> Option<T>): Option<T> {
    if keys == [] then None
    else
      var first := ReadKey(j, keys[0], read);
      if first.Some? then first else FirstReadable(j, keys[1..], read)
  }

  lemma {:induction false} FirstReadableIsFirst<T(!new)>(j: Json, keys: seq<string>, read: Json -> Option<T>)
    ensures IsFirstReadable(j, keys, read, FirstReadable(j, keys, read))
  {
    if keys != [] && ReadKey(j, keys[0], read).None? {
      var rest := keys[1..];
      FirstReadableIsFirst(j, rest, read);
      var out := FirstReadable(j, rest, read);
      if out.Some? {
        var i :|
          0 <= i < |rest| && ReadKey(j, rest[i], read) == out && forall h :: 0 <= h < i ==> ReadKey(j, rest[h], read).None?;
        forall h | 0 <= h < i + 1
          ensures ReadKey(j, keys[h], read).None?
        {
          assert h > 0 ==> keys[h] == rest[h - 1];
        }
        assert keys[i + 1] == rest[i];
      } else {
        forall h | 0 <= h < |keys|
          ensures ReadKey(j, keys[h], read).None?
        {
          assert h > 0 ==> keys[h] == rest[h - 1];
        }
      }
    }
  }

  /** The key loop shared by `get_string_any`, `get_number_any` and `get_time_any`. */
  method GetAny<T(!new)>(j: Json, keys: seq<string>, read: Json -> Option<T>) returns (out: Option<T>)
    ensures IsFirstReadable(j, keys, read, out)
    ensures out == FirstReadable(j, keys, read)
  {
    for i := 0 to |keys|
      invariant forall h :: 0 <= h < i ==> ReadKey(j, keys[h], read).None?
      invariant FirstReadable(j, keys, read) == FirstReadable(j, keys[i..], read)
    {
      assert keys[i..][1..] == keys[i + 1..];
      out := ReadKey(j, keys[i], read);
      if out.Some? {
        return;
      }
    }
    out := None;
  }

  // ----- unwrapping -----

  function UnwrapArray(j: Json): Json {
    if j.Array? && j.elems != [] then j.elems[0] else j
  }

  function UnwrapData(j: Json): Json {
    if Contains(j, "data") then
      var d := j.fields["data"];
      if d.Object? then d else if d.Array? && d.elems != [] then d.elems[0] else j
    else j
  }

  /**
   Every object is found through a "data" object, a "data" array and arrays of these. Bare, and as the first element
   of an array, an object is found exactly when it has no "data" object or non-empty "data" array of its own.
   */
  lemma WrappersAreTransparent(o: Json, more: seq<Json>, others: map<string, Json>)
    requires o.Object?
    ensures
      var own := Contains(o, "data") && (o.fields["data"].Object? || (o.fields["data"].Array? && o.fields["data"].elems != []));
      && (UnwrapData(UnwrapArray(o)) == o <==> !own)
      && (UnwrapData(UnwrapArray(Array([o] + more))) == o <==> !own)
    ensures
      var wrapped := Object(others["data" := o]);
      var listed := Object(others["data" := Array([o] + more)]);
      && UnwrapData(UnwrapArray(wrapped)) == o
      && UnwrapData(UnwrapArray(listed)) == o
      && UnwrapData(UnwrapArray(Array([wrapped] + more))) == o
      && UnwrapData(UnwrapArray(Array([listed] + more))) == o
  {
    assert ([o] + more)[0] == o;
  }

  // ----- timestamps and prefixes -----

  const MS_THRESHOLD := 1_000_000_000_000

  /** At or above 10^12 in magnitude a timestamp is milliseconds, below it is seconds. */
  function ToTimePoint(ts: int): int {
    if ts >= MS_THRESHOLD || ts <= -MS_THRESHOLD then ts else ts * 1000
  }

  /** A second count and its millisecond form are read as the same instant exactly in this range (and at zero). */
  lemma SecondsAndMillisecondsAgree(s: int)
    ensures ToTimePoint(s) == ToTimePoint(1000 * s)
       <==> s == 0 || 1_000_000_000 <= s < 1_000_000_000_000 || -1_000_000_000_000 < s <= -1_000_000_000
  {
  }

  function StripPrefix(prefix: string, token: Token): Token {
    if prefix <= token then token[|prefix|..] else token
  }

  // ----- parse_ltp -----

  function ParseTree(lib: Library, stripPrefix: string, tree: Json): Option<Ltp> {
    Fields(lib, stripPrefix, UnwrapData(UnwrapArray(tree)))
  }

  function Fields(lib: Library, stripPrefix: string, j: Json): Option<Ltp> {
    var token := FirstReadable(j, TOKEN_KEYS, Strings(lib));
    var price := FirstReadable(j, PRICE_KEYS, Numbers(lib));
    var time := FirstReadable(j, TS_KEYS, Times(lib));
    if token.None? || price.None? then None
    else Some(Ltp(StripPrefix(stripPrefix, token.value), price.value, if time.Some? then ToTimePoint(time.value) else 0))
  }

  function ParseLtp(lib: Library, stripPrefix: string, frame: string): Option<Ltp> {
    match lib.decode(frame)
    case None => None
    case Some(tree) => ParseTree(lib, stripPrefix, tree)
  }

  /** The statements of `parse_ltp`: reassigning the tree, three key loops, editing the token. */
  method Parse(lib: Library, stripPrefix: string, frame: string) returns (out: Option<Ltp>)
    ensures out == ParseLtp(lib, stripPrefix, frame)
  {
    var decoded := lib.decode(frame);
    if decoded.None? {
      return None;
    }
    var j := Unwrap(decoded.value);
    out := ReadFields(lib, stripPrefix, j);
  }

  method Unwrap(tree: Json) returns (j: Json)
    ensures j == UnwrapData(UnwrapArray(tree))
  {
    j := tree;
    if j.Array? && j.elems != [] {
      j := j.elems[0];
    }
    if Contains(j, "data") {
      var d := j.fields["data"];
      if d.Object? {
        j := d;
      } else if d.Array? && d.elems != [] {
        j := d.elems[0];
      }
    }
  }

  method ReadFields(lib: Library, stripPrefix: string, j: Json) returns (out: Option<Ltp>)
    ensures out == Fields(lib, stripPrefix, j)
  {
    var token := GetAny(j, TOKEN_KEYS, Strings(lib));
    if token.None? {
      return None;
    }
    var price := GetAny(j, PRICE_KEYS, Numbers(lib));
    if price.None? {
      return None;
    }
    var time := 0;
    var ts := GetAny(j, TS_KEYS, Times(lib));
    if ts.Some? {
      time := ToTimePoint(ts.value);
    }
    var name := token.value;
    if stripPrefix != "" && stripPrefix <= name {
      name := name[|stripPrefix|..];
    }
    return Some(Ltp(name, price.value, time));
  }

  /**
   A frame is accepted exactly when some token key and some price key are readable; each field then comes from the
   earliest readable key of its own list, and a frame without a readable timestamp is filed at the epoch.
   */
  lemma ParsedFields(lib: Library, stripPrefix: string, j: Json)
    ensures
      Fields(lib, stripPrefix, j).Some? <==>
        (&& (exists i :: 0 <= i < |TOKEN_KEYS| && ReadKey(j, TOKEN_KEYS[i], Strings(lib)).Some?)
         && (exists i :: 0 <= i < |PRICE_KEYS| && ReadKey(j, PRICE_KEYS[i], Numbers(lib)).Some?))
    ensures
      Fields(lib, stripPrefix, j).Some? ==>
        var ltp := Fields(lib, stripPrefix, j).value;
        && (exists name ::
              IsFirstReadable(j, TOKEN_KEYS, Strings(lib), Some(name)) && ltp.token == StripPrefix(stripPrefix, name))
        && IsFirstReadable(j, PRICE_KEYS, Numbers(lib), Some(ltp.price))
        && ((IsFirstReadable(j, TS_KEYS, Times(lib), None) && ltp.time == 0)
            || exists ts :: IsFirstReadable(j, TS_KEYS, Times(lib), Some(ts)) && ltp.time == ToTimePoint(ts))
  {
    FirstReadableIsFirst(j, TOKEN_KEYS, Strings(lib));
    FirstReadableIsFirst(j, PRICE_KEYS, Numbers(lib));
    FirstReadableIsFirst(j, TS_KEYS, Times(lib));
  }

  /**
   A frame about the name a token was subscribed under is filed under the raw token, for every prefix and token,
   in any of the wrappers, as long as the name is the first readable token key.
   */
  lemma SubscribedNameParsesToToken(lib: Library, prefix: string, t: Token, o: Json, tree: Json)
    requires o.Object? && UnwrapData(UnwrapArray(tree)) == o
    requires IsFirstReadable(o, TOKEN_KEYS, Strings(lib), Some(prefix + t))
    ensures FirstReadable(o, TOKEN_KEYS, Strings(lib)) == Some(prefix + t)
    ensures ParseTree(lib, prefix, tree).Some? 
      <==> exists i :: 0 <= i < |PRICE_KEYS| && ReadKey(o, PRICE_KEYS[i], Numbers(lib)).Some?
    ensures ParseTree(lib, prefix, tree).Some? ==> ParseTree(lib, prefix, tree).value.token == t
  {
    FirstReadableIsFirst(o, TOKEN_KEYS, Strings(lib));
    FirstReadableIsFirst(o, PRICE_KEYS, Numbers(lib));
    var price := FirstReadable(o, PRICE_KEYS, Numbers(lib));
    if price.Some? {
      var i :| 0 <= i < |PRICE_KEYS| && ReadKey(o, PRICE_KEYS[i], Numbers(lib)) == price;
    }
    assert (prefix + t)[|prefix|..] == t;
  }

  // ----- what a frame parses to, read off the tree -----

  predicate Absent(j: Json, key: string) {
    !(j.Object? && key in j.fields)
      || j.fields[key].Null? || j.fields[key].Boolean? || j.fields[key].Array? || j.fields[key].Object?
  }

  /** The key holds a text, or a number that prints as one. */
  predicate NameAt(lib: Library, j: Json, key: string, name: string) {
    && !Absent(j, key)
    && var v := j.fields[key];
       v == Text(name) || (v.Integer? && name == lib.dumpInteger(v.i)) || (v.Float? && name == lib.dumpFloat(v.text))
  }

  /** The key holds a number, or a text that starts with one. */
  predicate PriceAt(lib: Library, j: Json, key: string, price: Price) {
    && !Absent(j, key)
    && var v := j.fields[key];
       || (v.Float? && price == lib.floatPrice(v.text))
       || (v.Integer? && price == lib.integerPrice(v.i))
       || (v.Text? && lib.stod(v.s) == Some(price))
  }

  predicate NoPriceAt(lib: Library, j: Json, key: string) {
    Absent(j, key) || (j.fields[key].Text? && lib.stod(j.fields[key].s).None?)
  }

  /** The key holds a count of seconds or milliseconds, as a number or a text. */
  predicate StampAt(lib: Library, j: Json, key: string, stamp: int) {
    && !Absent(j, key)
    && var v := j.fields[key];
       || (v.Integer? && stamp == v.i)
       || (v.Float? && stamp == lib.floatTime(v.text))
       || (v.Text? && lib.stoll(v.s) == Some(stamp))
  }

  predicate NoStampAt(lib: Library, j: Json, key: string) {
    Absent(j, key) || (j.fields[key].Text? && lib.stoll(j.fields[key].s).None?)
  }

  // The first key of each list that can be read decides.

  predicate NameIs(lib: Library, j: Json, name: string) {
    if !Absent(j, "token") then NameAt(lib, j, "token", name)
    else if !Absent(j, "symbol") then NameAt(lib, j, "symbol", name)
    else if !Absent(j, "tradingsymbol") then NameAt(lib, j, "tradingsymbol", name)
    else if !Absent(j, "instrument_token") then NameAt(lib, j, "instrument_token", name)
    else NameAt(lib, j, "tokenID", name)
  }

  predicate PriceIs(lib: Library, j: Json, price: Price) {
    if !NoPriceAt(lib, j, "ltp") then PriceAt(lib, j, "ltp", price)
    else if !NoPriceAt(lib, j, "last_price") then PriceAt(lib, j, "last_price", price)
    else if !NoPriceAt(lib, j, "lastPrice") then PriceAt(lib, j, "lastPrice", price)
    else if !NoPriceAt(lib, j, "price") then PriceAt(lib, j, "price", price)
    else PriceAt(lib, j, "trade_price", price)
  }

  predicate StampIs(lib: Library, j: Json, stamp: int) {
    if !NoStampAt(lib, j, "exchange_timestamp") then StampAt(lib, j, "exchange_timestamp", stamp)
    else if !NoStampAt(lib, j, "timestamp") then StampAt(lib, j, "timestamp", stamp)
    else if !NoStampAt(lib, j, "ts") then StampAt(lib, j, "ts", stamp)
    else if !NoStampAt(lib, j, "time") then StampAt(lib, j, "time", stamp)
    else StampAt(lib, j, "epoch", stamp)
  }

  predicate NoStamp(lib: Library, j: Json) {
    && NoStampAt(lib, j, "exchange_timestamp") && NoStampAt(lib, j, "timestamp") && NoStampAt(lib, j, "ts")
    && NoStampAt(lib, j, "time") && NoStampAt(lib, j, "epoch")
  }

  /** Milliseconds from 10^12 on in magnitude, seconds below; the epoch when there is no timestamp. */
  ghost predicate TimeIs(lib: Library, j: Json, ms: int) {
    || (NoStamp(lib, j) && ms == 0)
    || (StampIs(lib, j, ms) && (ms <= -1_000_000_000_000 || 1_000_000_000_000 <= ms))
    || (exists s :: StampIs(lib, j, s) && -1_000_000_000_000 < s < 1_000_000_000_000 && ms == 1000 * s)
  }

  /** The name is the token, after the prefix if it starts with it. */
  predicate NamesToken(prefix: string, name: string, token: Token) {
    name == prefix + token || (name == token && !(prefix <= name))
  }

  lemma FirstOfFive<T>(j: Json, k0: string, k1: string, k2: string, k3: string, k4: string, read: Json -> Option<T>)
    ensures
      FirstReadable(j, [k0, k1, k2, k3, k4], read)
      == if ReadKey(j, k0, read).Some? then ReadKey(j, k0, read)
         else if ReadKey(j, k1, read).Some? then ReadKey(j, k1, read)
         else if ReadKey(j, k2, read).Some? then ReadKey(j, k2, read)
         else if ReadKey(j, k3, read).Some? then ReadKey(j, k3, read)
         else ReadKey(j, k4, read)
  {
    FirstOrRest(j, k0, [k1, k2, k3, k4], read);
    FirstOrRest(j, k1, [k2, k3, k4], read);
    FirstOrRest(j, k2, [k3, k4], read);
    FirstOrRest(j, k3, [k4], read);
    FirstOrRest(j, k4, [], read);
    assert [k0, k1, k2, k3, k4] == [k0] + [k1, k2, k3, k4];
    assert [k1, k2, k3, k4] == [k1] + [k2, k3, k4];
    assert [k2, k3, k4] == [k2] + [k3, k4];
    assert [k3, k4] == [k3] + [k4];
    assert [k4] == [k4] + [];
  }

  lemma FirstOrRest<T>(j: Json, key: string, rest: seq<string>, read: Json -> Option<T>)
    ensures
      FirstReadable(j, [key] + rest, read)
      == if ReadKey(j, key, read).Some? then ReadKey(j, key, read) else FirstReadable(j, rest, read)
  {
    assert ([key] + rest)[1..] == rest;
  }

  lemma NameFound(lib: Library, j: Json, name: string)
    ensures FirstReadable(j, TOKEN_KEYS, Strings(lib)) == Some(name) <==> NameIs(lib, j, name)
  {
    FirstOfFive(j, "token", "symbol", "tradingsymbol", "instrument_token", "tokenID", Strings(lib));
  }

  lemma PriceFound(lib: Library, j: Json, price: Price)
    ensures FirstReadable(j, PRICE_KEYS, Numbers(lib)) == Some(price) <==> PriceIs(lib, j, price)
  {
    FirstOfFive(j, "ltp", "last_price", "lastPrice", "price", "trade_price", Numbers(lib));
  }

  lemma StampFound(lib: Library, j: Json, stamp: int)
    ensures FirstReadable(j, TS_KEYS, Times(lib)) == Some(stamp) <==> StampIs(lib, j, stamp)
    ensures FirstReadable(j, TS_KEYS, Times(lib)).None? <==> NoStamp(lib, j)
  {
    FirstOfFive(j, "exchange_timestamp", "timestamp", "ts", "time", "epoch", Times(lib));
  }

  lemma TimeFound(lib: Library, j: Json, ms: int)
    ensures
      var found := FirstReadable(j, TS_KEYS, Times(lib));
      TimeIs(lib, j, ms) <==> ms == if found.Some? then ToTimePoint(found.value) else 0
  {
    var found := FirstReadable(j, TS_KEYS, Times(lib));
    StampFound(lib, j, ms);
    if found.Some? {
      StampFound(lib, j, found.value);
    }
    if s :| StampIs(lib, j, s) && -1_000_000_000_000 < s < 1_000_000_000_000 && ms == 1000 * s {
      StampFound(lib, j, s);
    }
  }

  lemma FieldsFound(lib: Library, prefix: string, j: Json, ltp: Ltp)
    ensures
      Fields(lib, prefix, j) == Some(ltp)
      <==> (&& (exists name :: NameIs(lib, j, name) && NamesToken(prefix, name, ltp.token))
            && PriceIs(lib, j, ltp.price)
            && TimeIs(lib, j, ltp.time))
  {
    var name := FirstReadable(j, TOKEN_KEYS, Strings(lib));
    PriceFound(lib, j, ltp.price);
    TimeFound(lib, j, ltp.time);
    if name.Some? {
      NameFound(lib, j, name.value);
      StripNames(prefix, name.value, ltp.token);
    }
    if n :| NameIs(lib, j, n) && NamesToken(prefix, n, ltp.token) {
      NameFound(lib, j, n);
    }
  }

  lemma StripNames(prefix: string, name: string, token: Token)
    ensures NamesToken(prefix, name, token) <==> token == StripPrefix(prefix, name)
  {
    assert prefix <= name ==> name == prefix + name[|prefix|..];
    assert (prefix + token)[|prefix|..] == token;
  }

  /** The shapes in which an object without a "data" key of its own arrives. */
  ghost predicate Carries(tree: Json, o: Json) {
    || tree == o
    || (tree.Array? && tree.elems != [] && CarriesInData(tree.elems[0], o))
    || (tree.Array? && tree.elems != [] && tree.elems[0] == o)
    || CarriesInData(tree, o)
  }

  ghost predicate CarriesInData(tree: Json, o: Json) {
    && tree.Object? && "data" in tree.fields
    && var d := tree.fields["data"];
       d == o || (d.Array? && d.elems != [] && d.elems[0] == o)
  }

  /**
   What `parse_ltp` returns, said of the JSON tree itself: for every library, prefix and wrapper, a frame is filed
   with a token, price and time exactly when the first readable key of each list says so; all other frames are
   rejected.
   */
  lemma ParseMeaning(lib: Library, prefix: string, frame: string, tree: Json, o: Json, ltp: Ltp)
    requires lib.decode(frame) == Some(tree) && o.Object? && "data" !in o.fields && Carries(tree, o)
    ensures
      ParseLtp(lib, prefix, frame) == Some(ltp)
      <==> (&& (exists name :: NameIs(lib, o, name) && NamesToken(prefix, name, ltp.token))
            && PriceIs(lib, o, ltp.price)
            && TimeIs(lib, o, ltp.time))
  {
    assert UnwrapData(UnwrapArray(tree)) == o;
    FieldsFound(lib, prefix, o, ltp);
  }

  /** A frame that is no JSON, or in which no object is found, is rejected. */
  lemma OthersAreRejected(lib: Library, prefix: string, frame: string)
    requires
      match lib.decode(frame)
      case None => true
      case Some(tree) =>
        || tree.Null? || tree.Boolean? || tree.Integer? || tree.Float? || tree.Text?
        || (tree.Array? && (tree.elems == [] || !tree.elems[0].Object?))
    ensures ParseLtp(lib, prefix, frame).None?
  {
    if lib.decode(frame).Some? {
      var j := UnwrapData(UnwrapArray(lib.decode(frame).value));
      FirstOfFive(j, "token", "symbol", "tradingsymbol", "instrument_token", "tokenID", Strings(lib));
    }
  }

  /** The plainest frame: a textual token and a price. */
  lemma PlainFrame(lib: Library, frame: string, t: Token, x: string)
    requires lib.decode(frame) == Some(Object(map["token" := Text(t), "ltp" := Float(x)]))
    ensures ParseLtp(lib, "", frame) == Some(Ltp(t, lib.floatPrice(x), 0))
  {
    var o := Object(map["token" := Text(t), "ltp" := Float(x)]);
    assert NameIs(lib, o, t) && NamesToken("", t, t);
    ParseMeaning(lib, "", frame, o, o, Ltp(t, lib.floatPrice(x), 0));
  }
}
