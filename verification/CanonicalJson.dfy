/** Canonical JSON as signed bytes (scripts/regional_agreements.py, _plain, canonical and decode; the
    subset of RFC 8259 that Python's json module writes and reads). A text is a sequence of code
    points, surrogates included, as a Python str is; a raw document is what strict UTF-8 decoding
    yields, so its characters are never surrogates. A document is written and read as a tree, in which
    the members of an object have an order and may repeat a key; the pairs hook makes a document of it. */
module CanonicalJson {
  import opened Wrappers

  type Code = c: nat | c < 0x11_0000
  type Text = seq<Code>

  datatype Json =
    | Object(members: map<Text, Json>)
    | Array(items: seq<Json>)
    | String(text: Text)
    | Number(number: int)
    | Bool(truth: bool)
    | Null

  const MAX_BYTES: nat := 32768
  const MAX_DEPTH: nat := 12
  const MAX_INTEGER: int := 0x1F_FFFF_FFFF_FFFF

  /** The code points of a character string. */
  function Codes(s: string): (r: Text)
    ensures |r| == |s| && forall i | 0 <= i < |s| :: r[i] == s[i] as int
  {
    seq(|s|, i requires 0 <= i < |s| => s[i] as int)
  }

  // ----- Order of keys -----

  /** Strict order of texts by code points. */
  predicate Before(a: Text, b: Text) {
    b != [] && (a == [] || a[0] < b[0] || (a[0] == b[0] && Before(a[1..], b[1..])))
  }

  lemma {:induction false} BeforeTransitive(a: Text, b: Text, c: Text)
    requires Before(a, b) && Before(b, c)
    ensures Before(a, c)
  {
    if a != [] && a[0] == b[0] == c[0] {
      BeforeTransitive(a[1..], b[1..], c[1..]);
    }
  }

  lemma {:induction false} BeforeTotal(a: Text, b: Text)
    ensures Before(a, b) || a == b || Before(b, a)
    ensures Before(a, b) ==> a != b && !Before(b, a)
  {
    if a != [] && b != [] && a[0] == b[0] {
      BeforeTotal(a[1..], b[1..]);
      assert a == [a[0]] + a[1..] && b == [b[0]] + b[1..];
    }
  }

  predicate Ascending(keys: seq<Text>) {
    forall i, j | 0 <= i < j < |keys| :: Before(keys[i], keys[j])
  }

  ghost predicate IsLeast(s: set<Text>, m: Text) {
    m in s && forall x | x in s && x != m :: Before(m, x)
  }

  lemma {:induction false} LeastExists(s: set<Text>)
    requires s != {}
    ensures exists m :: IsLeast(s, m)
  {
    hide Before;
    var k :| k in s;
    if s == {k} {
      assert IsLeast(s, k);
    } else {
      LeastExists(s - {k});
      var m :| IsLeast(s - {k}, m);
      BeforeTotal(k, m);
      if Before(k, m) {
        forall x | x in s && x != k ensures Before(k, x) {
          if x != m { BeforeTransitive(k, m, x); }
        }
        assert IsLeast(s, k);
      } else {
        assert IsLeast(s, m);
      }
    }
  }

  /** The keys of an object in the order in which they are written. */
  ghost function SortedKeys(s: set<Text>): (keys: seq<Text>)
    ensures Ascending(keys)
    ensures forall k :: k in keys <==> k in s
  {
    if s == {} then []
    else
      LeastExists(s);
      var m :| IsLeast(s, m);
      [m] + SortedKeys(s - {m})
  }

  // ----- Writing -----

  predicate High(c: Code) { 0xD800 <= c < 0xDC00 }
  predicate Low(c: Code) { 0xDC00 <= c < 0xE000 }

  function HexDigit(d: nat): char
    requires d < 16
  {
    if d < 10 then ('0' as int + d) as char else ('a' as int + d - 10) as char
  }

  function Hex4(n: nat): (s: string)
    requires n < 0x1_0000
    ensures |s| == 4
  {
    [HexDigit(n / 4096), HexDigit(n / 256 % 16), HexDigit(n / 16 % 16), HexDigit(n % 16)]
  }

  function Lead(c: Code): (r: Code)
    requires c >= 0x1_0000
    ensures High(r)
  {
    0xD800 + (c - 0x1_0000) / 0x400
  }

  function Trail(c: Code): (r: Code)
    requires c >= 0x1_0000
    ensures Low(r)
  {
    0xDC00 + (c - 0x1_0000) % 0x400
  }

  function Escape(c: Code): string {
    if c == 34 then "\\\""
    else if c == 92 then "\\\\"
    else if c == 10 then "\\n"
    else if c == 13 then "\\r"
    else if c == 9 then "\\t"
    else if c == 12 then "\\f"
    else if c == 8 then "\\b"
    else if 32 <= c <= 126 then [c as char]
    else if c < 0x1_0000 then "\\u" + Hex4(c)
    else "\\u" + Hex4(Lead(c)) + "\\u" + Hex4(Trail(c))
  }

  function Escaped(s: Text): string {
    if s == [] then "" else Escape(s[0]) + Escaped(s[1..])
  }

  function Quote(s: Text): string { "\"" + Escaped(s) + "\"" }

  function Digit(d: nat): char
    requires d < 10
  {
    ('0' as int + d) as char
  }

  function Decimal(n: nat): (s: string)
    ensures s != ""
  {
    if n < 10 then [Digit(n)] else Decimal(n / 10) + [Digit(n % 10)]
  }

  /** A value as it stands in a text. */
  datatype Tree =
    | Node(members: seq<Pair>)
    | List(items: seq<Tree>)
    | Word(text: Text)
    | Integer(number: int)
    | Flag(truth: bool)
    | Nothing

  datatype Pair = Pair(key: Text, value: Tree)

  /** The written form; `gap` follows each comma and colon. */
  function Write(t: Tree, gap: string): string
    decreases t
  {
    match t
    case Node(ms) => if ms == [] then "{}" else "{" + WriteMembers(ms, gap) + "}"
    case List(items) => if items == [] then "[]" else "[" + WriteItems(items, gap) + "]"
    case Word(s) => Quote(s)
    case Integer(n) => if n < 0 then "-" + Decimal(-n) else Decimal(n)
    case Flag(b) => if b then "true" else "false"
    case Nothing => "null"
  }

  function WriteItems(items: seq<Tree>, gap: string): string
    requires items != []
    decreases items
  {
    Write(items[0], gap) + (if |items| == 1 then "" else "," + gap + WriteItems(items[1..], gap))
  }

  function WriteMembers(ms: seq<Pair>, gap: string): string
    requires ms != []
    decreases ms
  {
    Quote(ms[0].key) + ":" + gap + Write(ms[0].value, gap)
    + (if |ms| == 1 then "" else "," + gap + WriteMembers(ms[1..], gap))
  }

  /** The tree that is written for a document: members sorted by key. */
  ghost function TreeOf(j: Json): Tree
    decreases j, 1
  {
    match j
    case Object(m) => Node(MembersOf(j, SortedKeys(m.Keys)))
    case Array(items) => List(ItemsOf(items))
    case String(s) => Word(s)
    case Number(n) => Integer(n)
    case Bool(b) => Flag(b)
    case Null => Nothing
  }

  ghost function ItemsOf(items: seq<Json>): (r: seq<Tree>)
    ensures |r| == |items|
    decreases items
  {
    if items == [] then [] else [TreeOf(items[0])] + ItemsOf(items[1..])
  }

  ghost function MembersOf(j: Json, keys: seq<Text>): (r: seq<Pair>)
    requires j.Object? && forall k | k in keys :: k in j.members
    ensures |r| == |keys|
    decreases j, 0, |keys|
  {
    if keys == [] then [] else [Pair(keys[0], TreeOf(j.members[keys[0]]))] + MembersOf(j, keys[1..])
  }

  /** What json.dumps writes with sorted keys. */
  ghost function Dump(j: Json, gap: string): string { Write(TreeOf(j), gap) }

  predicate Printable(s: Text) { forall c | c in s :: 32 <= c <= 126 }

  /** The documents that may be signed. */
  predicate Plain(j: Json, depth: nat)
    decreases j
  {
    && depth <= MAX_DEPTH
    && match j
       case Object(m) =>
         |m| <= 32 && (forall k | k in m :: |k| <= 64) && forall k | k in m :: Plain(m[k], depth + 1)
       case Array(items) => |items| <= 32 && forall i | i in items :: Plain(i, depth + 1)
       case String(s) => |s| <= 8192 && Printable(s)
       case Number(n) => 0 <= n <= MAX_INTEGER
       case Bool(_) => false
       case Null => false
  }

  ghost function Canonical(j: Json): Result<string> {
    var raw := Dump(j, "");
    if Plain(j, 0) && |raw| <= MAX_BYTES then Success(raw) else Failure
  }

  // ----- Reading -----

  datatype Parsed<+T> = Parsed(value: T, rest: string)

  predicate Space(c: char) { c == ' ' || c == '\t' || c == '\n' || c == '\r' }

  function Skip(t: string): (r: string)
    ensures |r| <= |t|
  {
    if t != "" && Space(t[0]) then Skip(t[1..]) else t
  }

  predicate IsHex(c: char) { '0' <= c <= '9' || 'a' <= c <= 'f' || 'A' <= c <= 'F' }

  function HexValue(c: char): (d: nat)
    requires IsHex(c)
    ensures d < 16
  {
    if c <= '9' then c as int - '0' as int
    else if c <= 'F' then c as int - 'A' as int + 10
    else c as int - 'a' as int + 10
  }

  predicate AllHex(t: string) { forall c | c in t :: IsHex(c) }

  function ReadHex4(t: string): (n: Code)
    requires |t| >= 4 && AllHex(t[..4])
    ensures n < 0x1_0000
  {
    assert t[0] in t[..4] && t[1] in t[..4] && t[2] in t[..4] && t[3] in t[..4];
    HexValue(t[0]) * 4096 + HexValue(t[1]) * 256 + HexValue(t[2]) * 16 + HexValue(t[3])
  }

  /** A further `\u` escape with at least four characters behind it. */
  predicate UnicodeNext(t: string) { |t| >= 6 && t[0] == '\\' && t[1] == 'u' }

  /** Some text that is not read as the second half of a surrogate pair. */
  predicate NoLowNext(t: string) {
    UnicodeNext(t) ==> AllHex(t[2..6]) && !Low(ReadHex4(t[2..]))
  }

  /** The code after `\u`; a high half joins the low half that follows it. */
  function ReadUnicode(t: string): (r: Result<Parsed<Code>>)
    ensures r.Success? ==> |r.value.rest| < |t|
    ensures r.Success? && High(r.value.value) ==> NoLowNext(r.value.rest)
    ensures r.Success? && Low(r.value.value) ==> |t| >= 4 && AllHex(t[..4]) && Low(ReadHex4(t))
  {
    if |t| < 4 || !AllHex(t[..4]) then Failure
    else
      var c, rest := ReadHex4(t), t[4..];
      if High(c) && UnicodeNext(rest) then
        if !AllHex(rest[2..6]) then Failure
        else
          assert rest[2..][..4] == rest[2..6];
          var d := ReadHex4(rest[2..]);
          if Low(d) then
            Success(Parsed(0x1_0000 + (c - 0xD800) * 0x400 + (d - 0xDC00), rest[6..]))
          else Success(Parsed(c, rest))
      else Success(Parsed(c, rest))
  }

  function ReadEscape(t: string): (r: Result<Parsed<Code>>)
    ensures r.Success? ==> |r.value.rest| < |t|
    ensures r.Success? && High(r.value.value) ==> NoLowNext(r.value.rest)
    ensures (r.Success? && Low(r.value.value)
             ==> |t| >= 5 && t[0] == 'u' && AllHex(t[1..5]) && Low(ReadHex4(t[1..])))
  {
    if t == "" then Failure
    else if t[0] == 'u' then
      assert |t| >= 5 ==> t[1..][..4] == t[1..5];
      ReadUnicode(t[1..])
    else
      if t[0] == '"' then Success(Parsed(34, t[1..]))
      else if t[0] == '\\' then Success(Parsed(92, t[1..]))
      else if t[0] == '/' then Success(Parsed(47, t[1..]))
      else if t[0] == 'b' then Success(Parsed(8, t[1..]))
      else if t[0] == 'f' then Success(Parsed(12, t[1..]))
      else if t[0] == 'n' then Success(Parsed(10, t[1..]))
      else if t[0] == 'r' then Success(Parsed(13, t[1..]))
      else if t[0] == 't' then Success(Parsed(9, t[1..]))
      else Failure
  }

  /** No high half is directly followed by a low half. */
  predicate Joined(s: Text) {
    forall i | 0 <= i < |s| - 1 :: !(High(s[i]) && Low(s[i + 1]))
  }

  /** A string after its opening quote. What is read is always joined. */
  function ReadText(t: string): (r: Result<Parsed<Text>>)
    ensures r.Success? ==> |r.value.rest| < |t| && Joined(r.value.value)
    ensures r.Success? && NoLowNext(t) && r.value.value != [] ==> !Low(r.value.value[0])
    decreases |t|
  {
    if t == "" then Failure
    else if t[0] == '"' then Success(Parsed([], t[1..]))
    else if t[0] < ' ' then Failure
    else
      var first := if t[0] == '\\' then ReadEscape(t[1..]) else Success(Parsed(t[0] as int, t[1..]));
      if first.Failure? then Failure
      else
        assert |t| >= 6 ==> t[1..][1..5] == t[2..6] && t[1..][1..] == t[2..];
        var more := ReadText(first.value.rest);
        if more.Failure? then Failure
        else Success(Parsed([first.value.value] + more.value.value, more.value.rest))
  }

  predicate IsDigit(c: char) { '0' <= c <= '9' }

  function ReadDigits(t: string, n: nat): (p: Parsed<nat>)
    ensures |p.rest| <= |t|
    decreases |t|
  {
    if t != "" && IsDigit(t[0]) then ReadDigits(t[1..], 10 * n + (t[0] as int - '0' as int)) else Parsed(n, t)
  }

  /** An integer without sign. A fraction or an exponent stays unread; nothing that can follow a value
      begins with one, so a document holding a float is refused here and not by _plain. */
  function ReadNatural(t: string): (r: Result<Parsed<nat>>)
    ensures r.Success? ==> |r.value.rest| < |t|
  {
    if t == "" || !IsDigit(t[0]) then Failure
    else if t[0] == '0' then Success(Parsed(0, t[1..]))
    else Success(ReadDigits(t[1..], t[0] as int - '0' as int))
  }

  predicate StartsWith(t: string, word: string) { word <= t }

  /** Every key and every string of the tree is joined. */
  predicate TreeJoined(t: Tree)
    decreases t
  {
    match t
    case Node(ms) => forall p | p in ms :: Joined(p.key) && TreeJoined(p.value)
    case List(items) => forall i | i in items :: TreeJoined(i)
    case Word(s) => Joined(s)
    case _ => true
  }

  /** What is read is always joined. */
  function ReadTree(t: string): (r: Result<Parsed<Tree>>)
    ensures r.Success? ==> |r.value.rest| < |t| && TreeJoined(r.value.value)
    decreases |t|, 1
  {
    if t == "" then Failure
    else if t[0] == '"' then
      var s := ReadText(t[1..]);
      if s.Failure? then Failure else Success(Parsed(Word(s.value.value), s.value.rest))
    else if t[0] == '{' then
      var u := Skip(t[1..]);
      if u != "" && u[0] == '}' then Success(Parsed(Node([]), u[1..]))
      else
        var m := ReadMembers(u);
        if m.Failure? then Failure else Success(Parsed(Node(m.value.value), m.value.rest))
    else if t[0] == '[' then
      var u := Skip(t[1..]);
      if u != "" && u[0] == ']' then Success(Parsed(List([]), u[1..]))
      else
        var a := ReadItems(u);
        if a.Failure? then Failure else Success(Parsed(List(a.value.value), a.value.rest))
    else if t[0] == '-' then
      var n := ReadNatural(t[1..]);
      if n.Failure? then Failure else Success(Parsed(Integer(0 - n.value.value), n.value.rest))
    else if StartsWith(t, "null") then Success(Parsed(Nothing, t[4..]))
    else if StartsWith(t, "true") then Success(Parsed(Flag(true), t[4..]))
    else if StartsWith(t, "false") then Success(Parsed(Flag(false), t[5..]))
    else
      var n := ReadNatural(t);
      if n.Failure? then Failure else Success(Parsed(Integer(n.value.value), n.value.rest))
  }

  /** One member, and what follows it behind white space. */
  function ReadMember(t: string): (r: Result<Parsed<Pair>>)
    ensures r.Success? ==> |r.value.rest| < |t| && Joined(r.value.value.key) && TreeJoined(r.value.value.value)
    decreases |t|, 0
  {
    if t == "" || t[0] != '"' then Failure
    else
      var key := ReadText(t[1..]);
      if key.Failure? then Failure
      else
        var u := Skip(key.value.rest);
        if u == "" || u[0] != ':' then Failure
        else
          var v := ReadTree(Skip(u[1..]));
          if v.Failure? then Failure
          else Success(Parsed(Pair(key.value.value, v.value.value), Skip(v.value.rest)))
  }

  /** The members after an opening brace, through the closing one. */
  function ReadMembers(t: string): (r: Result<Parsed<seq<Pair>>>)
    ensures r.Success? ==> |r.value.rest| < |t|
    ensures r.Success? ==> forall p | p in r.value.value :: Joined(p.key) && TreeJoined(p.value)
    decreases |t|, 1
  {
    var member := ReadMember(t);
    if member.Failure? then Failure
    else
      var w := member.value.rest;
      if w != "" && w[0] == '}' then Success(Parsed([member.value.value], w[1..]))
      else if w == "" || w[0] != ',' then Failure
      else
        var more := ReadMembers(Skip(w[1..]));
        if more.Failure? then Failure
        else Success(Parsed([member.value.value] + more.value.value, more.value.rest))
  }

  function ReadItems(t: string): (r: Result<Parsed<seq<Tree>>>)
    ensures r.Success? ==> |r.value.rest| < |t|
    ensures r.Success? ==> forall i | i in r.value.value :: TreeJoined(i)
    decreases |t|, 2
  {
    var v := ReadTree(t);
    if v.Failure? then Failure
    else
      var w := Skip(v.value.rest);
      if w != "" && w[0] == ']' then Success(Parsed([v.value.value], w[1..]))
      else if w == "" || w[0] != ',' then Failure
      else
        var more := ReadItems(Skip(w[1..]));
        if more.Failure? then Failure
        else Success(Parsed([v.value.value] + more.value.value, more.value.rest))
  }

  /** The document of a tree; the pairs hook refuses an object that repeats a key. */
  function Build(t: Tree): Result<Json>
    decreases t
  {
    match t
    case Node(ms) =>
      var m := BuildMembers(ms);
      if m.Failure? then Failure else Success(Object(m.value))
    case List(items) =>
      var a := BuildItems(items);
      if a.Failure? then Failure else Success(Array(a.value))
    case Word(s) => Success(String(s))
    case Integer(n) => Success(Number(n))
    case Flag(b) => Success(Bool(b))
    case Nothing => Success(Null)
  }

  function BuildMembers(ms: seq<Pair>): Result<map<Text, Json>>
    decreases ms
  {
    if ms == [] then Success(map[])
    else
      var v, more := Build(ms[0].value), BuildMembers(ms[1..]);
      if v.Failure? || more.Failure? || ms[0].key in more.value then Failure
      else Success(more.value[ms[0].key := v.value])
  }

  function BuildItems(items: seq<Tree>): Result<seq<Json>>
    decreases items
  {
    if items == [] then Success([])
    else
      var v, more := Build(items[0]), BuildItems(items[1..]);
      if v.Failure? || more.Failure? then Failure else Success([v.value] + more.value)
  }

  /** Every key and every string of the document is joined. */
  predicate AllJoined(j: Json)
    decreases j
  {
    match j
    case Object(m) => forall k | k in m :: Joined(k) && AllJoined(m[k])
    case Array(items) => forall i | i in items :: AllJoined(i)
    case String(s) => Joined(s)
    case _ => true
  }

  /** Bytes of the UTF-8 form. */
  function Utf8Size(raw: string): nat {
    if raw == "" then 0
    else
      var c := raw[0] as int;
      (if c < 0x80 then 1 else if c < 0x800 then 2 else if c < 0x1_0000 then 3 else 4) + Utf8Size(raw[1..])
  }

  ghost function Decode(raw: string): Result<Json> {
    if Utf8Size(raw) > MAX_BYTES then Failure
    else
      var v := ReadTree(Skip(raw));
      if v.Failure? || Skip(v.value.rest) != "" || !v.value.value.Node? then Failure
      else
        var d := Build(v.value.value);
        if d.Failure? || Canonical(d.value).Failure? then Failure else d
  }

  // ----- Reading back what was written -----

  lemma HexDigitReads(d: nat)
    requires d < 16
    ensures IsHex(HexDigit(d)) && HexValue(HexDigit(d)) == d
  {
  }

  lemma HexPlaces(n: nat)
    requires n < 0x1_0000
    ensures n == n / 4096 * 4096 + n / 256 % 16 * 256 + n / 16 % 16 * 16 + n % 16
  {
    assert n / 16 / 16 == n / 256 && n / 256 / 16 == n / 4096;
  }

  lemma HexReads(n: nat, u: string)
    requires n < 0x1_0000
    ensures (Hex4(n) + u)[..4] == Hex4(n) && AllHex(Hex4(n)) && ReadHex4(Hex4(n) + u) == n
    ensures (Hex4(n) + u)[4..] == u
  {
    hide HexDigit, HexValue, IsHex;
    HexPlaces(n);
    HexDigitReads(n / 4096);
    HexDigitReads(n / 256 % 16);
    HexDigitReads(n / 16 % 16);
    HexDigitReads(n % 16);
    assert (Hex4(n) + u)[..4] == Hex4(n);
  }

  predicate NeedsEscape(c: Code) { c == 34 || c == 92 || c < 32 || c > 126 }

  lemma UnicodeReads(c: Code, u: string)
    requires High(c) ==> NoLowNext(u)
    ensures var t := if c < 0x1_0000 then Hex4(c) + u else Hex4(Lead(c)) + ("\\u" + Hex4(Trail(c)) + u);
            ReadUnicode(t) == Success(Parsed(c, u))
  {
    hide HexValue, HexDigit, IsHex;
    hide ReadHex4, Hex4;
    if c < 0x1_0000 {
      HexReads(c, u);
      assert UnicodeNext(u) ==> u[2..][..4] == u[2..6];
    } else {
      var v := "\\u" + Hex4(Trail(c)) + u;
      HexReads(Lead(c), v);
      HexReads(Trail(c), u);
      assert v[2..] == Hex4(Trail(c)) + u;
      assert v[2..6] == v[2..][..4] && v[6..] == v[2..][4..];
    }
  }

  lemma EscapeOnce(c: Code, u: string)
    requires NeedsEscape(c) && (High(c) ==> NoLowNext(u))
    ensures Escape(c)[0] == '\\' && ReadEscape((Escape(c) + u)[1..]) == Success(Parsed(c, u))
  {
    hide ReadUnicode, NoLowNext, UnicodeNext, Hex4;
    var t := (Escape(c) + u)[1..];
    if c == 34 || c == 92 || c == 10 || c == 13 || c == 9 || c == 12 || c == 8 {
      assert t[1..] == u;
    } else if c < 0x1_0000 {
      UnicodeReads(c, u);
      assert t[1..] == Hex4(c) + u;
    } else {
      UnicodeReads(c, u);
      assert t[1..] == Hex4(Lead(c)) + ("\\u" + Hex4(Trail(c)) + u);
    }
  }

  function Prepend(c: Code, r: Result<Parsed<Text>>): Result<Parsed<Text>> {
    if r.Failure? then Failure else Success(Parsed([c] + r.value.value, r.value.rest))
  }

  /** One written code is read back, unless a low half would join it. */
  lemma EscapeReads(c: Code, u: string)
    requires High(c) ==> NoLowNext(u)
    ensures ReadText(Escape(c) + u) == Prepend(c, ReadText(u))
  {
    hide ReadEscape, NoLowNext;
    var t := Escape(c) + u;
    if NeedsEscape(c) {
      EscapeOnce(c, u);
      assert t[0] == '\\';
    } else {
      assert t == [c as char] + u && t[1..] == u;
    }
  }

  lemma EscapeNotLow(c: Code, u: string)
    requires !Low(c)
    ensures NoLowNext(Escape(c) + u)
  {
    var t := Escape(c) + u;
    if UnicodeNext(t) {
      var h := if c < 0x1_0000 then c else Lead(c);
      var v := if c < 0x1_0000 then u else "\\u" + Hex4(Trail(c)) + u;
      HexReads(h, v);
      assert t[2..] == Hex4(h) + v;
      assert t[2..6] == t[2..][..4];
    }
  }

  lemma TextEnds(rest: string)
    ensures ReadText("\"" + rest) == Success(Parsed([], rest)) && NoLowNext("\"" + rest)
  {
    assert ("\"" + rest)[1..] == rest;
  }

  /** The code that two surrogate halves encode. */
  function Whole(h: Code, l: Code): (c: Code)
    requires High(h) && Low(l)
    ensures c >= 0x1_0000 && Lead(c) == h && Trail(c) == l
  {
    0x1_0000 + (h - 0xD800) * 0x400 + (l - 0xDC00)
  }

  /** A text with each high half and the low half behind it replaced by what they encode. */
  function JoinText(s: Text): Text {
    if s == [] then []
    else if |s| > 1 && High(s[0]) && Low(s[1]) then [Whole(s[0], s[1])] + JoinText(s[2..])
    else [s[0]] + JoinText(s[1..])
  }

  lemma {:induction false} JoinedText(s: Text)
    ensures Joined(JoinText(s)) && (s != [] && !Low(s[0]) ==> !Low(JoinText(s)[0]))
    ensures Joined(s) ==> JoinText(s) == s
  {
    if s == [] {
    } else if |s| > 1 && High(s[0]) && Low(s[1]) {
      JoinedText(s[2..]);
    } else {
      JoinedText(s[1..]);
      assert s == [s[0]] + s[1..];
    }
  }

  lemma WholeIsWritten(h: Code, l: Code)
    requires High(h) && Low(l)
    ensures Escape(Whole(h, l)) == Escape(h) + Escape(l)
  {
    hide Hex4, Lead, Trail;
    assert Escape(h) == "\\u" + Hex4(h) && Escape(l) == "\\u" + Hex4(l);
  }

  lemma EscapedStep(c: Code, more: Text)
    ensures Escaped([c] + more) == Escape(c) + Escaped(more)
  {
    assert ([c] + more)[1..] == more;
  }

  lemma EscapedPair(s: Text)
    requires |s| > 1
    ensures Escaped(s) == Escape(s[0]) + Escape(s[1]) + Escaped(s[2..])
  {
    hide Escape;
    assert s[1..][1..] == s[2..];
  }

  /** Halves that belong together are written like the code that they encode. */
  lemma {:induction false} JoinedIsWritten(s: Text)
    ensures Escaped(JoinText(s)) == Escaped(s)
  {
    hide Escape, Whole;
    if s == [] {
    } else if |s| > 1 && High(s[0]) && Low(s[1]) {
      JoinedIsWritten(s[2..]);
      WholeIsWritten(s[0], s[1]);
      EscapedPair(s);
      EscapedStep(Whole(s[0], s[1]), JoinText(s[2..]));
    } else {
      JoinedIsWritten(s[1..]);
      EscapedStep(s[0], JoinText(s[1..]));
    }
  }

  lemma {:induction false} JoinedTextReads(s: Text, rest: string)
    requires Joined(s)
    ensures ReadText(Escaped(s) + "\"" + rest) == Success(Parsed(s, rest))
  {
    hide ReadText, NoLowNext, Escape;
    if s == [] {
      TextEnds(rest);
      assert Escaped(s) + "\"" + rest == "\"" + rest;
    } else {
      var u := Escaped(s[1..]) + "\"" + rest;
      assert Escaped(s) + "\"" + rest == Escape(s[0]) + u;
      if |s| == 1 {
        TextEnds(rest);
        assert u == "\"" + rest;
      } else if High(s[0]) {
        var w := Escaped(s[1..][1..]) + "\"" + rest;
        EscapeNotLow(s[1], w);
        assert u == Escape(s[1]) + w;
      }
      JoinedTextReads(s[1..], rest);
      EscapeReads(s[0], u);
      assert [s[0]] + s[1..] == s;
    }
  }

  /** Every text is read back with its surrogate halves joined. */
  lemma TextReads(s: Text, rest: string)
    ensures ReadText(Escaped(s) + "\"" + rest) == Success(Parsed(JoinText(s), rest))
  {
    hide ReadText, Escaped, JoinText;
    JoinedText(s);
    JoinedIsWritten(s);
    JoinedTextReads(JoinText(s), rest);
  }

  /** What may stand behind a value. */
  predicate Ends(t: string) { t == "" || t[0] == ',' || t[0] == ']' || t[0] == '}' }

  lemma {:induction false} DigitsRead(n: nat, u: string)
    ensures ReadDigits(Decimal(n) + u, 0) == ReadDigits(u, n)
  {
    if n < 10 {
      assert (Decimal(n) + u)[1..] == u;
    } else {
      var v := [Digit(n % 10)] + u;
      assert Decimal(n) + u == Decimal(n / 10) + v;
      DigitsRead(n / 10, v);
      assert v[1..] == u;
    }
  }

  lemma {:induction false} DecimalStarts(n: nat)
    ensures IsDigit(Decimal(n)[0]) && (n > 0 ==> Decimal(n)[0] != '0')
  {
    if n >= 10 { DecimalStarts(n / 10); }
  }

  lemma NaturalReads(n: nat, rest: string)
    requires Ends(rest)
    ensures ReadNatural(Decimal(n) + rest) == Success(Parsed(n, rest))
  {
    var t := Decimal(n) + rest;
    DecimalStarts(n);
    if n == 0 {
      assert t[1..] == rest;
    } else {
      DigitsRead(n, rest);
    }
  }

  /** A tree with all its texts joined. */
  function JoinTree(t: Tree): Tree
    decreases t
  {
    match t
    case Node(ms) => Node(JoinMembers(ms))
    case List(items) => List(JoinItems(items))
    case Word(s) => Word(JoinText(s))
    case _ => t
  }

  function JoinMembers(ms: seq<Pair>): (r: seq<Pair>)
    ensures |r| == |ms|
    decreases ms
  {
    if ms == [] then [] else [Pair(JoinText(ms[0].key), JoinTree(ms[0].value))] + JoinMembers(ms[1..])
  }

  function JoinItems(items: seq<Tree>): (r: seq<Tree>)
    ensures |r| == |items|
    decreases items
  {
    if items == [] then [] else [JoinTree(items[0])] + JoinItems(items[1..])
  }

  /** Nothing that starts a value is white space. */
  lemma WriteStarts(t: Tree, gap: string)
    ensures Write(t, gap) != "" && !Space(Write(t, gap)[0]) && Write(t, gap)[0] != ']'
  {
    if t.Integer? { DecimalStarts(if t.number < 0 then -t.number else t.number); }
  }

  predicate Gap(gap: string) { gap == "" || gap == " " }

  lemma SkipGap(gap: string, u: string)
    requires Gap(gap) && u != "" && !Space(u[0])
    ensures Skip(gap + u) == u && Skip(u) == u
  {
    if gap == " " { assert (gap + u)[1..] == u; } else { assert gap + u == u; }
  }

  lemma SkipNothing(t: string)
    requires t == "" || !Space(t[0])
    ensures Skip(t) == t
  {
  }

  lemma ObjectReads(body: string, ms: seq<Pair>, rest: string)
    requires body != "" && body[0] == '"' && ReadMembers(body + "}" + rest) == Success(Parsed(ms, rest))
    ensures ReadTree("{" + body + "}" + rest) == Success(Parsed(Node(ms), rest))
  {
    hide ReadMembers, ReadItems, ReadText, ReadNatural, TreeJoined;
    var t := "{" + body + "}" + rest;
    assert t[1..] == body + "}" + rest;
    SkipNothing(t[1..]);
  }

  lemma ArrayReads(body: string, a: seq<Tree>, rest: string)
    requires body != "" && !Space(body[0]) && body[0] != ']'
    requires ReadItems(body + "]" + rest) == Success(Parsed(a, rest))
    ensures ReadTree("[" + body + "]" + rest) == Success(Parsed(List(a), rest))
  {
    hide ReadMembers, ReadItems, ReadText, ReadNatural, TreeJoined;
    var t := "[" + body + "]" + rest;
    assert t[1..] == body + "]" + rest;
    SkipNothing(t[1..]);
  }

  /** Values without parts. */
  lemma LeafReads(v: Tree, gap: string, rest: string)
    requires Ends(rest)
    requires match v case Node(ms) => ms == [] case List(a) => a == [] case _ => true
    ensures ReadTree(Write(v, gap) + rest) == Success(Parsed(JoinTree(v), rest))
  {
    hide ReadText, ReadNatural, ReadMembers, ReadItems, Escaped, Decimal, JoinText, TreeJoined;
    var t := Write(v, gap) + rest;
    match v
    case Word(s) =>
      assert t[1..] == Escaped(s) + "\"" + rest;
      TextReads(s, rest);
    case Integer(n) =>
      if n < 0 {
        assert t[1..] == Decimal(-n) + rest;
        NaturalReads(-n, rest);
      } else {
        DecimalStarts(n);
        NaturalReads(n, rest);
      }
    case Node(_) =>
      assert t[1..] == "}" + rest && t[1..][1..] == rest;
      SkipNothing(t[1..]);
    case List(_) =>
      assert t[1..] == "]" + rest && t[1..][1..] == rest;
      SkipNothing(t[1..]);
    case Flag(b) => assert t[|Write(v, gap)|..] == rest;
    case Nothing => assert t[4..] == rest;
  }

  /** Reading inverts writing, up to joined surrogate halves, before anything that may follow. */
  lemma {:induction false} TreeReads(t: Tree, gap: string, rest: string)
    requires Gap(gap) && Ends(rest)
    ensures ReadTree(Write(t, gap) + rest) == Success(Parsed(JoinTree(t), rest))
    decreases t
  {
    hide ReadTree, ReadMembers, ReadItems, WriteMembers;
    if t.Node? && t.members != [] {
      MembersRead(t.members, gap, rest);
      MembersStart(t.members, gap);
      ObjectReads(WriteMembers(t.members, gap), JoinMembers(t.members), rest);
    } else if t.List? && t.items != [] {
      ItemsRead(t.items, gap, rest);
      WriteStarts(t.items[0], gap);
      ArrayReads(WriteItems(t.items, gap), JoinItems(t.items), rest);
    } else {
      LeafReads(t, gap, rest);
    }
  }

  lemma QuoteAssociates(key: Text, u: string, gap: string, value: string)
    requires u == ":" + gap + value
    ensures Quote(key) + ":" + gap + value == "\"" + (Escaped(key) + "\"" + u)
    ensures ("\"" + (Escaped(key) + "\"" + u))[1..] == Escaped(key) + "\"" + u && u[1..] == gap + value
  {
    hide Escaped;
  }

  /** A written key, its colon and whatever value is read behind them. */
  lemma MemberReads(key: Text, v: Tree, gap: string, value: string, tail: string)
    requires Gap(gap) && value != "" && !Space(value[0])
    requires ReadTree(value) == Success(Parsed(v, tail)) && (tail == "" || !Space(tail[0]))
    ensures ReadMember(Quote(key) + ":" + gap + value) == Success(Parsed(Pair(JoinText(key), v), tail))
  {
    hide ReadText, ReadTree, Escaped, TreeJoined, Joined, Skip, Quote, JoinText;
    var u := ":" + gap + value;
    QuoteAssociates(key, u, gap, value);
    TextReads(key, u);
    SkipNothing(u);
    SkipGap(gap, value);
    SkipNothing(tail);
  }

  /** The last member of an object. */
  lemma LastMemberReads(t: string, member: Pair, rest: string)
    requires ReadMember(t) == Success(Parsed(member, "}" + rest))
    ensures ReadMembers(t) == Success(Parsed([member], rest))
  {
    hide ReadMember, TreeJoined, Joined;
    assert ("}" + rest)[1..] == rest;
  }

  /** A member in front of further members. */
  lemma FirstMemberReads(t: string, member: Pair, gap: string, u: string, more: seq<Pair>, rest: string)
    requires Gap(gap) && u != "" && !Space(u[0])
    requires ReadMember(t) == Success(Parsed(member, "," + gap + u)) && ReadMembers(u) == Success(Parsed(more, rest))
    ensures ReadMembers(t) == Success(Parsed([member] + more, rest))
  {
    hide ReadMember, TreeJoined, Joined;
    assert ("," + gap + u)[1..] == gap + u;
    SkipGap(gap, u);
  }

  lemma {:induction false} MembersRead(ms: seq<Pair>, gap: string, rest: string)
    requires Gap(gap) && ms != []
    ensures ReadMembers(WriteMembers(ms, gap) + "}" + rest) == Success(Parsed(JoinMembers(ms), rest))
    decreases ms
  {
    hide ReadMembers, ReadTree, Quote, Write, JoinText, JoinTree;
    var key, v := ms[0].key, ms[0].value;
    var joined := Pair(JoinText(key), JoinTree(v));
    WriteStarts(v, gap);
    if |ms| == 1 {
      var value := Write(v, gap) + ("}" + rest);
      assert WriteMembers(ms, gap) + "}" + rest == Quote(key) + ":" + gap + value;
      TreeReads(v, gap, "}" + rest);
      MemberReads(key, JoinTree(v), gap, value, "}" + rest);
      LastMemberReads(WriteMembers(ms, gap) + "}" + rest, joined, rest);
      assert JoinMembers(ms) == [joined];
    } else {
      var u := WriteMembers(ms[1..], gap) + "}" + rest;
      var value := Write(v, gap) + ("," + gap + u);
      assert WriteMembers(ms, gap) + "}" + rest == Quote(key) + ":" + gap + value;
      TreeReads(v, gap, "," + gap + u);
      MembersStart(ms[1..], gap);
      MembersRead(ms[1..], gap, rest);
      MemberReads(key, JoinTree(v), gap, value, "," + gap + u);
      FirstMemberReads(WriteMembers(ms, gap) + "}" + rest, joined, gap, u, JoinMembers(ms[1..]), rest);
    }
  }

  lemma MembersStart(ms: seq<Pair>, gap: string)
    requires ms != []
    ensures WriteMembers(ms, gap) != "" && WriteMembers(ms, gap)[0] == '"'
  {
    hide Escaped, Write;
  }

  lemma ItemsAssociate(item: string, gap: string, more: string, rest: string)
    ensures item + ("," + gap + more) + "]" + rest == item + ("," + gap + (more + "]" + rest))
    ensures ("," + gap + (more + "]" + rest))[1..] == gap + (more + "]" + rest)
  {
  }

  lemma {:induction false} ItemsRead(items: seq<Tree>, gap: string, rest: string)
    requires Gap(gap) && items != []
    ensures ReadItems(WriteItems(items, gap) + "]" + rest) == Success(Parsed(JoinItems(items), rest))
    decreases items
  {
    hide ReadTree, Write, Skip, JoinTree, TreeJoined;
    WriteStarts(items[0], gap);
    var joined := JoinTree(items[0]);
    if |items| == 1 {
      var tail := "]" + rest;
      assert WriteItems(items, gap) + "]" + rest == Write(items[0], gap) + tail;
      TreeReads(items[0], gap, tail);
      SkipNothing(tail);
      assert tail[1..] == rest && JoinItems(items) == [joined];
    } else {
      var u := WriteItems(items[1..], gap) + "]" + rest;
      var tail := "," + gap + u;
      ItemsAssociate(Write(items[0], gap), gap, WriteItems(items[1..], gap), rest);
      TreeReads(items[0], gap, tail);
      SkipNothing(tail);
      WriteStarts(items[1], gap);
      SkipGap(gap, u);
      ItemsRead(items[1..], gap, rest);
    }
  }

  // ----- Size -----

  predicate Ascii(s: string) { forall c | c in s :: c as int < 0x80 }

  lemma {:induction false} AsciiSize(s: string)
    requires Ascii(s)
    ensures Utf8Size(s) == |s|
  {
    if s != "" {
      assert s[0] in s && forall c | c in s[1..] :: c in s;
      AsciiSize(s[1..]);
    }
  }

  lemma EscapeAscii(c: Code)
    ensures Ascii(Escape(c))
  {
    forall n: nat | n < 0x1_0000 ensures Ascii("\\u" + Hex4(n)) {
      assert forall d: nat | d < 16 :: HexDigit(d) as int < 0x80;
    }
    hide HexDigit;
    hide Hex4;
  }

  lemma {:induction false} TextAscii(s: Text)
    ensures Ascii(Escaped(s))
  {
    hide Escape;
    if s != [] {
      EscapeAscii(s[0]);
      TextAscii(s[1..]);
    }
  }

  lemma {:induction false} DecimalAscii(n: nat)
    ensures Ascii(Decimal(n))
  {
    if n >= 10 { DecimalAscii(n / 10); }
  }

  lemma {:induction false} WriteAscii(t: Tree, gap: string)
    requires Gap(gap)
    ensures Ascii(Write(t, gap))
    decreases t
  {
    hide WriteMembers, WriteItems, Decimal, Escaped;
    match t
    case Node(ms) => if ms != [] { MembersAscii(ms, gap); }
    case List(items) => if items != [] { ItemsAscii(items, gap); }
    case Word(s) => TextAscii(s);
    case Integer(n) => DecimalAscii(if n < 0 then -n else n);
    case _ =>
  }

  lemma {:induction false} MembersAscii(ms: seq<Pair>, gap: string)
    requires Gap(gap) && ms != []
    ensures Ascii(WriteMembers(ms, gap))
    decreases ms
  {
    hide Write, Escaped;
    TextAscii(ms[0].key);
    WriteAscii(ms[0].value, gap);
    if |ms| > 1 { MembersAscii(ms[1..], gap); }
  }

  lemma {:induction false} ItemsAscii(items: seq<Tree>, gap: string)
    requires Gap(gap) && items != []
    ensures Ascii(WriteItems(items, gap))
    decreases items
  {
    hide Write;
    WriteAscii(items[0], gap);
    if |items| > 1 { ItemsAscii(items[1..], gap); }
  }

  // ----- When two written forms are equal -----

  lemma {:induction false} JoinedTreeIsWritten(t: Tree, gap: string)
    ensures Write(JoinTree(t), gap) == Write(t, gap)
    decreases t
  {
    hide Escaped, JoinText, WriteMembers, WriteItems, JoinMembers, JoinItems;
    match t
    case Node(ms) => if ms != [] { JoinedMembersAreWritten(ms, gap); } else { assert JoinMembers(ms) == []; }
    case List(items) => if items != [] { JoinedItemsAreWritten(items, gap); } else { assert JoinItems(items) == []; }
    case Word(s) => JoinedIsWritten(s);
    case _ =>
  }

  lemma {:induction false} JoinedMembersAreWritten(ms: seq<Pair>, gap: string)
    requires ms != []
    ensures WriteMembers(JoinMembers(ms), gap) == WriteMembers(ms, gap)
    decreases ms
  {
    hide Escaped, JoinText, Write, JoinTree;
    JoinedIsWritten(ms[0].key);
    JoinedTreeIsWritten(ms[0].value, gap);
    assert JoinMembers(ms)[1..] == JoinMembers(ms[1..]);
    if |ms| > 1 { JoinedMembersAreWritten(ms[1..], gap); }
  }

  lemma {:induction false} JoinedItemsAreWritten(items: seq<Tree>, gap: string)
    requires items != []
    ensures WriteItems(JoinItems(items), gap) == WriteItems(items, gap)
    decreases items
  {
    hide Write, JoinTree;
    JoinedTreeIsWritten(items[0], gap);
    assert JoinItems(items)[1..] == JoinItems(items[1..]);
    if |items| > 1 { JoinedItemsAreWritten(items[1..], gap); }
  }

  /** Two trees have one written form exactly when they agree after joining surrogate halves. */
  lemma WrittenAlike(t: Tree, u: Tree, gap: string)
    requires Gap(gap)
    ensures Write(t, gap) == Write(u, gap) <==> JoinTree(t) == JoinTree(u)
  {
    hide Write, ReadTree, JoinTree, TreeJoined;
    if Write(t, gap) == Write(u, gap) {
      TreeReads(t, gap, "");
      TreeReads(u, gap, "");
    }
    JoinedTreeIsWritten(t, gap);
    JoinedTreeIsWritten(u, gap);
  }

  lemma {:induction false} JoinedTree(t: Tree)
    ensures TreeJoined(JoinTree(t)) && (TreeJoined(t) ==> JoinTree(t) == t)
    decreases t
  {
    hide JoinText, Joined;
    match t
    case Node(ms) => JoinedMembers(ms);
    case List(items) => JoinedItems(items);
    case Word(s) => JoinedText(s);
    case _ =>
  }

  lemma {:induction false} JoinedMembers(ms: seq<Pair>)
    ensures forall p | p in JoinMembers(ms) :: Joined(p.key) && TreeJoined(p.value)
    ensures (forall p | p in ms :: Joined(p.key) && TreeJoined(p.value)) ==> JoinMembers(ms) == ms
    decreases ms
  {
    hide JoinText, Joined, JoinTree;
    if ms != [] {
      JoinedText(ms[0].key);
      JoinedTree(ms[0].value);
      JoinedMembers(ms[1..]);
      assert ms == [ms[0]] + ms[1..] && ms[0] in ms && forall p | p in ms[1..] :: p in ms;
    }
  }

  lemma {:induction false} JoinedItems(items: seq<Tree>)
    ensures forall i | i in JoinItems(items) :: TreeJoined(i)
    ensures (forall i | i in items :: TreeJoined(i)) ==> JoinItems(items) == items
    decreases items
  {
    hide JoinTree;
    if items != [] {
      JoinedTree(items[0]);
      JoinedItems(items[1..]);
      assert items == [items[0]] + items[1..] && items[0] in items && forall i | i in items[1..] :: i in items;
    }
  }

  // ----- Documents and their trees -----

  predicate Distinct(keys: seq<Text>) { forall i, j | 0 <= i < j < |keys| :: keys[i] != keys[j] }

  lemma AscendingDistinct(keys: seq<Text>)
    requires Ascending(keys)
    ensures Distinct(keys)
  {
    forall i, j | 0 <= i < j < |keys| ensures keys[i] != keys[j] { BeforeTotal(keys[i], keys[j]); }
  }

  function Restricted(m: map<Text, Json>, keys: seq<Text>): map<Text, Json>
    requires forall k | k in keys :: k in m
  {
    map k | k in keys :: m[k]
  }

  lemma RestrictedStep(m: map<Text, Json>, keys: seq<Text>)
    requires keys != [] && Distinct(keys) && forall k | k in keys :: k in m
    ensures keys[0] !in Restricted(m, keys[1..])
    ensures Restricted(m, keys) == Restricted(m, keys[1..])[keys[0] := m[keys[0]]]
    ensures |keys| == 1 ==> Restricted(m, keys) == map[keys[0] := m[keys[0]]]
  {
    assert keys == [keys[0]] + keys[1..];
  }

  /** The hook makes a document of its own tree again. */
  lemma {:induction false} BuildTreeOf(j: Json)
    ensures Build(TreeOf(j)) == Success(j)
    decreases j, 1
  {
    hide SortedKeys, MembersOf, ItemsOf, BuildMembers, BuildItems;
    match j
    case Object(m) =>
      var keys := SortedKeys(m.Keys);
      AscendingDistinct(keys);
      BuildMembersOf(j, keys);
      assert Restricted(m, keys) == m;
    case Array(items) => BuildItemsOf(items);
    case _ =>
  }

  lemma {:induction false} BuildMembersOf(j: Json, keys: seq<Text>)
    requires j.Object? && Distinct(keys) && forall k | k in keys :: k in j.members
    ensures BuildMembers(MembersOf(j, keys)) == Success(Restricted(j.members, keys))
    decreases j, 0, |keys|
  {
    hide TreeOf, Build;
    if keys != [] {
      BuildTreeOf(j.members[keys[0]]);
      BuildMembersOf(j, keys[1..]);
      RestrictedStep(j.members, keys);
      assert MembersOf(j, keys)[1..] == MembersOf(j, keys[1..]);
    }
  }

  lemma {:induction false} BuildItemsOf(items: seq<Json>)
    ensures BuildItems(ItemsOf(items)) == Success(items)
    decreases items
  {
    hide TreeOf, Build;
    if items != [] {
      BuildTreeOf(items[0]);
      BuildItemsOf(items[1..]);
      assert ItemsOf(items)[1..] == ItemsOf(items[1..]) && [items[0]] + items[1..] == items;
    }
  }

  lemma {:induction false} TreeOfJoined(j: Json)
    requires AllJoined(j)
    ensures TreeJoined(TreeOf(j))
    decreases j, 1
  {
    hide SortedKeys, MembersOf, ItemsOf, Joined;
    match j
    case Object(m) => MembersOfJoined(j, SortedKeys(m.Keys));
    case Array(items) => ItemsOfJoined(items);
    case _ =>
  }

  lemma {:induction false} MembersOfJoined(j: Json, keys: seq<Text>)
    requires j.Object? && AllJoined(j) && forall k | k in keys :: k in j.members
    ensures forall p | p in MembersOf(j, keys) :: Joined(p.key) && TreeJoined(p.value)
    decreases j, 0, |keys|
  {
    hide TreeOf, TreeJoined, Joined;
    if keys != [] {
      TreeOfJoined(j.members[keys[0]]);
      MembersOfJoined(j, keys[1..]);
    }
  }

  lemma {:induction false} ItemsOfJoined(items: seq<Json>)
    requires forall i | i in items :: AllJoined(i)
    ensures forall i | i in ItemsOf(items) :: TreeJoined(i)
    decreases items
  {
    hide TreeOf, TreeJoined;
    if items != [] {
      TreeOfJoined(items[0]);
      ItemsOfJoined(items[1..]);
    }
  }

  lemma {:induction false} BuildJoined(t: Tree)
    requires TreeJoined(t) && Build(t).Success?
    ensures AllJoined(Build(t).value)
    decreases t
  {
    hide BuildMembers, BuildItems, Joined;
    match t
    case Node(ms) => BuildMembersJoined(ms);
    case List(items) => BuildItemsJoined(items);
    case _ =>
  }

  lemma {:induction false} BuildMembersJoined(ms: seq<Pair>)
    requires (forall p | p in ms :: Joined(p.key) && TreeJoined(p.value)) && BuildMembers(ms).Success?
    ensures forall k | k in BuildMembers(ms).value :: Joined(k) && AllJoined(BuildMembers(ms).value[k])
    decreases ms
  {
    hide Build, Joined, TreeJoined, AllJoined;
    if ms != [] {
      assert ms[0] in ms && forall p | p in ms[1..] :: p in ms;
      BuildJoined(ms[0].value);
      BuildMembersJoined(ms[1..]);
    }
  }

  lemma {:induction false} BuildItemsJoined(items: seq<Tree>)
    requires (forall i | i in items :: TreeJoined(i)) && BuildItems(items).Success?
    ensures forall i | i in BuildItems(items).value :: AllJoined(i)
    decreases items
  {
    hide Build, TreeJoined, AllJoined;
    if items != [] {
      assert items[0] in items && forall i | i in items[1..] :: i in items;
      BuildJoined(items[0]);
      BuildItemsJoined(items[1..]);
    }
  }

  predicate DistinctKeys(ms: seq<Pair>) {
    forall i, j | 0 <= i < j < |ms| :: ms[i].key != ms[j].key
  }

  /** No object in the tree repeats a key. */
  predicate NoneRepeats(t: Tree)
    decreases t
  {
    match t
    case Node(ms) => DistinctKeys(ms) && forall p | p in ms :: NoneRepeats(p.value)
    case List(items) => forall i | i in items :: NoneRepeats(i)
    case _ => true
  }

  /** The hook refuses a tree exactly when some object in it repeats a key. */
  lemma {:induction false} BuildExactly(t: Tree)
    ensures Build(t).Success? <==> NoneRepeats(t)
    decreases t
  {
    hide BuildMembers, BuildItems, DistinctKeys;
    match t
    case Node(ms) => BuildMembersExactly(ms);
    case List(items) => BuildItemsExactly(items);
    case _ =>
  }

  lemma {:induction false} BuildMembersExactly(ms: seq<Pair>)
    ensures BuildMembers(ms).Success? <==> DistinctKeys(ms) && forall p | p in ms :: NoneRepeats(p.value)
    ensures BuildMembers(ms).Success? ==> Holds(BuildMembers(ms).value, ms)
    decreases ms
  {
    hide Build, NoneRepeats, DistinctKeys;
    if ms == [] {
      assert DistinctKeys(ms) by { NoPairs(ms); }
    } else {
      var more := ms[1..];
      assert ms == [ms[0]] + more && forall i | 0 <= i < |more| :: more[i] == ms[i + 1];
      BuildExactly(ms[0].value);
      BuildMembersExactly(more);
      DistinctKeysStep(ms);
    }
  }

  function KeysOf(ms: seq<Pair>): set<Text> { set p | p in ms :: p.key }

  /** An object made of exactly these members. */
  predicate Holds(m: map<Text, Json>, ms: seq<Pair>) {
    m.Keys == KeysOf(ms) && forall p | p in ms :: Build(p.value) == Success(m[p.key])
  }

  lemma {:induction false} DistinctKeysCount(ms: seq<Pair>)
    ensures |KeysOf(ms)| <= |ms| && (|KeysOf(ms)| == |ms| <==> DistinctKeys(ms))
  {
    hide DistinctKeys;
    if ms == [] {
      NoPairs(ms);
    } else {
      var more := ms[1..];
      assert ms == [ms[0]] + more && forall i | 0 <= i < |more| :: more[i] == ms[i + 1];
      assert KeysOf(ms) == {ms[0].key} + KeysOf(more);
      DistinctKeysCount(more);
      DistinctKeysStep(ms);
      KeyRepeats(ms);
      hide KeysOf;
    }
  }

  lemma KeyRepeats(ms: seq<Pair>)
    requires ms != []
    ensures ms[0].key in KeysOf(ms[1..]) <==> exists i | 1 <= i < |ms| :: ms[i].key == ms[0].key
  {
    var more := ms[1..];
    assert forall i | 0 <= i < |more| :: more[i] == ms[i + 1];
    if ms[0].key in KeysOf(more) {
      var p :| p in more && p.key == ms[0].key;
      var i :| 0 <= i < |more| && more[i] == p;
      assert ms[i + 1].key == ms[0].key;
    }
    if i :| 1 <= i < |ms| && ms[i].key == ms[0].key {
      assert more[i - 1] in more;
    }
  }

  /** The order of its members does not matter to an object. */
  lemma MembersInAnyOrder(ms: seq<Pair>, ns: seq<Pair>)
    requires multiset(ms) == multiset(ns)
    ensures Build(Node(ms)) == Build(Node(ns))
  {
    hide DistinctKeys, BuildMembers, NoneRepeats;
    assert forall p :: p in ms <==> p in multiset(ms);
    assert forall p :: p in ns <==> p in multiset(ns);
    assert KeysOf(ms) == KeysOf(ns) && |ms| == |multiset(ms)| == |ns|;
    DistinctKeysCount(ms);
    DistinctKeysCount(ns);
    BuildMembersExactly(ms);
    BuildMembersExactly(ns);
    if BuildMembers(ms).Success? {
      HoldsUnique(BuildMembers(ms).value, BuildMembers(ns).value, ms, ns);
    }
  }

  lemma HoldsUnique(m: map<Text, Json>, n: map<Text, Json>, ms: seq<Pair>, ns: seq<Pair>)
    requires Holds(m, ms) && Holds(n, ns) && forall p :: p in ms <==> p in ns
    ensures m == n
  {
    hide Build;
    forall k | k in m ensures k in n && m[k] == n[k] {
      var p :| p in ms && p.key == k;
      assert p in ns;
    }
    forall k | k in n ensures k in m {
      var p :| p in ns && p.key == k;
      assert p in ms;
    }
  }

  lemma NoPairs(ms: seq<Pair>)
    requires ms == []
    ensures DistinctKeys(ms)
  {
  }

  lemma DistinctKeysStep(ms: seq<Pair>)
    requires ms != []
    ensures DistinctKeys(ms) <==> DistinctKeys(ms[1..]) && forall i | 1 <= i < |ms| :: ms[i].key != ms[0].key
  {
    var more := ms[1..];
    assert forall i | 0 <= i < |more| :: more[i] == ms[i + 1];
    if DistinctKeys(more) && forall i | 1 <= i < |ms| :: ms[i].key != ms[0].key {
      forall i, j | 0 <= i < j < |ms| ensures ms[i].key != ms[j].key {
        if i > 0 { assert ms[i] == more[i - 1] && ms[j] == more[j - 1]; }
      }
    }
  }

  lemma {:induction false} BuildItemsExactly(items: seq<Tree>)
    ensures BuildItems(items).Success? <==> forall i | i in items :: NoneRepeats(i)
    decreases items
  {
    hide Build, NoneRepeats;
    if items != [] {
      assert items == [items[0]] + items[1..];
      BuildExactly(items[0]);
      BuildItemsExactly(items[1..]);
    }
  }

  // ----- Main results -----

  /** Two documents have the same bytes exactly when their trees, members sorted by key, agree after
      joining surrogate halves. */
  lemma SignedAlike(a: Json, b: Json, gap: string)
    requires Gap(gap)
    ensures Dump(a, gap) == Dump(b, gap) <==> JoinTree(TreeOf(a)) == JoinTree(TreeOf(b))
  {
    hide Write, TreeOf, JoinTree;
    WrittenAlike(TreeOf(a), TreeOf(b), gap);
  }

  /** Different joined documents have different written forms, whatever the gap. */
  lemma DumpInjective(a: Json, b: Json, gap: string)
    requires Gap(gap) && AllJoined(a) && AllJoined(b) && Dump(a, gap) == Dump(b, gap)
    ensures a == b
  {
    hide Dump, AllJoined, TreeOf, JoinTree, TreeJoined, Build;
    SignedAlike(a, b, gap);
    TreeOfJoined(a);
    TreeOfJoined(b);
    JoinedTree(TreeOf(a));
    JoinedTree(TreeOf(b));
    BuildTreeOf(a);
    BuildTreeOf(b);
  }

  /** Any tree, with its members in any order and either gap, decodes to the document that the hook makes
      of it after joining surrogate halves, exactly when no object repeats a key and that document is an
      object that can be signed. */
  lemma WrittenDecodes(t: Tree, gap: string)
    requires Gap(gap)
    ensures var raw, u := Write(t, gap), JoinTree(t);
            && (Build(u).Success? <==> NoneRepeats(u))
            && Decode(raw)
               == if |raw| <= MAX_BYTES && u.Node? && Build(u).Success? && Canonical(Build(u).value).Success?
                  then Build(u) else Failure
  {
    hide Write, ReadTree, JoinTree, TreeJoined, Canonical, Utf8Size, Build, NoneRepeats;
    var raw := Write(t, gap);
    WriteAscii(t, gap);
    AsciiSize(raw);
    WriteStarts(t, gap);
    SkipNothing(raw);
    TreeReads(t, gap, "");
    assert raw + "" == raw;
    BuildExactly(JoinTree(t));
  }

  /** The signed bytes of an object decode to that object exactly when no text in it holds a high
      surrogate directly followed by a low one. */
  lemma CanonicalRoundTrip(d: Json)
    requires d.Object? && Canonical(d).Success?
    ensures Decode(Canonical(d).value) == Success(d) <==> AllJoined(d)
  {
    hide Write, ReadTree, JoinTree, TreeJoined, AllJoined, Plain, Utf8Size, Build, NoneRepeats, Decode;
    var t := TreeOf(d);
    assert Canonical(d).value == Write(t, "");
    WrittenDecodes(t, "");
    JoinedTree(t);
    BuildExactly(JoinTree(t));
    if AllJoined(d) {
      TreeOfJoined(d);
      BuildTreeOf(d);
    }
    if Build(JoinTree(t)) == Success(d) { BuildJoined(JoinTree(t)); }
  }

  predicate PrintableKeys(j: Json)
    decreases j
  {
    match j
    case Object(m) => forall k | k in m :: Printable(k) && PrintableKeys(m[k])
    case Array(items) => forall i | i in items :: PrintableKeys(i)
    case _ => true
  }

  lemma PrintableJoined(s: Text)
    requires Printable(s)
    ensures Joined(s)
  {
    forall i | 0 <= i < |s| - 1 ensures !High(s[i]) { assert s[i] in s; }
  }

  lemma {:induction false} PrintableKeysJoined(j: Json, depth: nat)
    requires Plain(j, depth) && PrintableKeys(j)
    ensures AllJoined(j)
    decreases j
  {
    match j
    case Object(m) => forall k | k in m ensures Joined(k) && AllJoined(m[k]) {
        PrintableJoined(k);
        PrintableKeysJoined(m[k], depth + 1);
      }
    case Array(items) => forall i | i in items ensures AllJoined(i) { PrintableKeysJoined(i, depth + 1); }
    case String(s) => PrintableJoined(s);
    case _ =>
  }

  /** With printable keys the signed bytes decode to the document and name only it. */
  lemma PrintableDocuments(d: Json, e: Json)
    requires Canonical(d).Success? && PrintableKeys(d)
    ensures d.Object? ==> Decode(Canonical(d).value) == Success(d)
    ensures Canonical(e) == Canonical(d) && PrintableKeys(e) ==> e == d
  {
    hide Dump, AllJoined, Plain, Decode, PrintableKeys;
    PrintableKeysJoined(d, 0);
    if d.Object? { CanonicalRoundTrip(d); }
    if Canonical(e) == Canonical(d) && PrintableKeys(e) {
      PrintableKeysJoined(e, 0);
      DumpInjective(d, e, "");
    }
  }

  /** Whatever decode returns is an object that can be signed, and its signed bytes, which may differ
      from the bytes received, decode to it again. */
  lemma DecodedDocuments(raw: string)
    requires Decode(raw).Success?
    ensures var d := Decode(raw).value;
            d.Object? && Canonical(d).Success? && AllJoined(d) && Decode(Canonical(d).value) == Success(d)
  {
    hide ReadTree, AllJoined, TreeJoined, Canonical, Utf8Size;
    var v := ReadTree(Skip(raw)).value;
    BuildJoined(v.value);
    CanonicalRoundTrip(Decode(raw).value);
  }

  /** The part of a document that a verifier looks up by key. */
  function Field(d: Json, key: Text): Option<Json> {
    if d.Object? && key in d.members then Some(d.members[key]) else None
  }

  /** An acceptance holds a digest of canonical(offer). Taking the digest as injective on those bytes,
      two agreements that reach a verifier through decode and carry the same digest carry the same offer. */
  lemma AcceptanceNamesOneOffer(raw: string, raw': string, digest: string -> nat)
    requires forall s, s' :: digest(s) == digest(s') ==> s == s'
    requires Decode(raw).Success? && Decode(raw').Success?
    ensures var offer, offer' := Field(Decode(raw).value, Codes("offer")), Field(Decode(raw').value, Codes("offer"));
            (&& offer.Some? && offer'.Some?
             && Canonical(offer.value).Success? && Canonical(offer'.value).Success?
             && digest(Canonical(offer.value).value) == digest(Canonical(offer'.value).value))
            ==> offer == offer'
  {
    hide Dump, Plain, Decode;
    DecodedDocuments(raw);
    DecodedDocuments(raw');
    var offer, offer' := Field(Decode(raw).value, Codes("offer")), Field(Decode(raw').value, Codes("offer"));
    if offer.Some? && offer'.Some? && Canonical(offer.value).Success? && Canonical(offer'.value).Success?
      && digest(Canonical(offer.value).value) == digest(Canonical(offer'.value).value) {
      DumpInjective(offer.value, offer'.value, "");
    }
  }

  lemma OneMember(k: Text, v: Json)
    ensures TreeOf(Object(map[k := v])) == Node([Pair(k, TreeOf(v))])
  {
    hide SortedKeys;
    var j := Object(map[k := v]);
    var keys := SortedKeys({k});
    AscendingDistinct(keys);
    assert |keys| > 1 ==> keys[0] != keys[1];
    assert k in keys && forall i | 0 <= i < |keys| :: keys[i] in keys;
    assert forall i | 0 <= i < |keys| :: keys[i] == k;
    assert keys == [k] && j.members.Keys == {k};
    assert [k][1..] == [];
    assert MembersOf(j, [k]) == [Pair(k, TreeOf(v))] + MembersOf(j, []);
  }

  /** Documents built in memory, not decoded, can share their signed bytes: a key made of two surrogate
      halves and the key made of the character that they encode. */
  lemma SplitPairsCollide()
    ensures var split, whole := Object(map[[0xD83D, 0xDE00] := Number(1)]), Object(map[[0x1_F600] := Number(1)]);
            split != whole && Canonical(split).Success? && Canonical(split) == Canonical(whole)
  {
    hide Canonical;
    var s: Text, w: Text := [0xD83D, 0xDE00], [0x1_F600];
    var split, whole := Object(map[s := Number(1)]), Object(map[w := Number(1)]);
    SplitPairJoins(s, w);
    CountsOne(s);
    CountsOne(w);
    OneMember(s, Number(1));
    OneMember(w, Number(1));
    OneMemberJoins(s, Integer(1));
    OneMemberJoins(w, Integer(1));
    assert TreeOf(Number(1)) == Integer(1);
    assert split != whole by { assert s in split.members && s !in whole.members; }
    hide Write, TreeOf, JoinTree, JoinText, Escaped;
    SignedAlike(split, whole, "");
    hide Dump;
  }

  /** A document that maps one short key to 1 can be signed. */
  lemma CountsOne(k: Text)
    requires |k| <= 64 && |Escaped(k)| <= 64
    ensures var d := Object(map[k := Number(1)]);
            Canonical(d) == Success(Dump(d, ""))
  {
    hide Escaped, SortedKeys;
    var d := Object(map[k := Number(1)]);
    OneMember(k, Number(1));
    OneMemberSize(k);
    assert TreeOf(Number(1)) == Integer(1);
    hide Write, TreeOf;
    assert Plain(Number(1), 1);
    assert |d.members| == 1;
  }

  lemma OneMemberSize(k: Text)
    ensures |Write(Node([Pair(k, Integer(1))]), "")| == |Escaped(k)| + 6
  {
    hide Escaped;
    var ms := [Pair(k, Integer(1))];
    assert Decimal(1) == "1" && Write(ms[0].value, "") == "1";
    assert WriteMembers(ms, "") == Quote(k) + ":" + "" + "1" + "";
    assert Write(Node(ms), "") == "{" + WriteMembers(ms, "") + "}";
  }

  lemma OneMemberJoins(k: Text, t: Tree)
    requires t.Integer?
    ensures JoinTree(Node([Pair(k, t)])) == Node([Pair(JoinText(k), t)])
  {
    hide JoinText;
    assert [Pair(k, t)][1..] == [];
    assert JoinMembers([Pair(k, t)]) == [Pair(JoinText(k), t)];
  }

  lemma SplitPairJoins(s: Text, w: Text)
    requires s == [0xD83D, 0xDE00] && w == [0x1_F600]
    ensures JoinText(s) == w && JoinText(w) == w && |Escaped(s)| == 12 && |Escaped(w)| == 12
  {
    hide Hex4;
    var t: Text := [0xDE00];
    assert s[1..] == t && t[1..] == [] && w[1..] == [] && s[2..] == [];
    assert JoinText(s) == [Whole(s[0], s[1])] + JoinText(s[2..]);
    assert JoinText(w) == [w[0]] + JoinText(w[1..]);
    assert Escaped(t) == Escape(0xDE00);
    assert Escaped(w) == Escape(0x1_F600);
  }
}
