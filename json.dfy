/**
 * The JSON values the client builds with `json!` and sends as text
 * (`Value::to_string`, serde_json's compact form). Numbers are integers:
 * the client only ever puts integers of its own into a document.
 */
module Json {
  import opened Base

  datatype Value =
    | Null
    | Bool(b: bool)
    | Number(n: int)
    | String(s: string)
    | Array(items: seq<Value>)
    | Object(members: seq<Member>)

  datatype Member = Member(key: string, value: Value)

  /** The keys of an object, in order. */
  function Keys(members: seq<Member>): (ks: seq<string>)
    ensures |ks| == |members|
    ensures forall i :: 0 <= i < |members| ==> ks[i] == members[i].key
  {
    if members == [] then [] else [members[0].key] + Keys(members[1..])
  }

  /** No key occurs twice (what a map-backed object always satisfies). */
  predicate UniqueKeys(members: seq<Member>) {
    forall i, j :: 0 <= i < j < |members| ==> members[i].key != members[j].key
  }

  /** The value stored under `key`, if any. */
  function Get(members: seq<Member>, key: string): Option<Value> {
    if members == [] then None
    else if members[0].key == key then Some(members[0].value)
    else Get(members[1..], key)
  }

  /**
   * `Map::insert`, as the `json!` macro uses it for each `key: value` pair:
   * an existing key keeps its place and takes the new value, a new key is
   * appended.
   */
  function Insert(members: seq<Member>, key: string, value: Value): seq<Member> {
    if members == [] then [Member(key, value)]
    else if members[0].key == key then [Member(key, value)] + members[1..]
    else [members[0]] + Insert(members[1..], key, value)
  }

  /**
   * After an insert, the key holds the new value, every other key holds what
   * it held before, and the object grows only for a new key.
   */
  lemma {:induction false} InsertGet(members: seq<Member>, key: string, value: Value, other: string)
    ensures Get(Insert(members, key, value), key) == Some(value)
    ensures other != key ==> Get(Insert(members, key, value), other) == Get(members, other)
    ensures |Insert(members, key, value)| == |members| + (if Get(members, key).None? then 1 else 0)
  {
    if members != [] && members[0].key != key {
      InsertGet(members[1..], key, value, other);
    }
  }

  /** Inserting into an object with unique keys keeps its keys unique. */
  lemma {:induction false} InsertKeepsKeysUnique(members: seq<Member>, key: string, value: Value)
    requires UniqueKeys(members)
    ensures UniqueKeys(Insert(members, key, value))
  {
    if members != [] && members[0].key != key {
      InsertKeepsKeysUnique(members[1..], key, value);
      InsertKeys(members[1..], key, value);
    }
  }

  /** Inserting a key the object lacks appends one member at the end. */
  lemma {:induction false} InsertNew(members: seq<Member>, key: string, value: Value)
    requires Get(members, key).None?
    ensures Insert(members, key, value) == members + [Member(key, value)]
  {
    if members != [] {
      InsertNew(members[1..], key, value);
      assert members == [members[0]] + members[1..];
    }
  }

  /** Insert adds no key but its own. */
  lemma {:induction false} InsertKeys(members: seq<Member>, key: string, value: Value)
    ensures forall m :: m in Insert(members, key, value) ==> m.key == key || m.key in Keys(members)
  {
    if members != [] {
      InsertKeys(members[1..], key, value);
    }
  }

  /** Lower-case hexadecimal digit, as serde_json writes `\u00XX` escapes. */
  function HexDigit(d: int): char
    requires 0 <= d < 16
  {
    if d < 10 then ('0' as int + d) as char else ('a' as int + d - 10) as char
  }

  /** serde_json's escaping of one character inside a string literal. */
  function EscapeChar(c: char): string {
    if c == '"' then "\\\""
    else if c == '\\' then "\\\\"
    else if c as int == 0x08 then "\\b"
    else if c == '\t' then "\\t"
    else if c == '\n' then "\\n"
    else if c as int == 0x0C then "\\f"
    else if c == '\r' then "\\r"
    else if c as int < 0x20 then "\\u00" + [HexDigit(c as int / 16), HexDigit(c as int % 16)]
    else [c]
  }

  /** The characters that serde_json writes other than as themselves. */
  predicate NeedsEscape(c: char) {
    c == '"' || c == '\\' || c as int < 0x20
  }

  function Escape(s: string): string {
    if s == [] then [] else EscapeChar(s[0]) + Escape(s[1..])
  }

  /** A string literal: the escaped text between double quotes. */
  function Quote(s: string): string {
    "\"" + Escape(s) + "\""
  }

  /** Decimal digits of a natural number, most significant first. */
  function Digits(n: nat): string
    decreases n
  {
    if n < 10 then [('0' as int + n) as char] else Digits(n / 10) + [('0' as int + n % 10) as char]
  }

  function Decimal(n: int): string {
    if n < 0 then "-" + Digits(-n) else Digits(n)
  }

  /** `Value::to_string`: compact JSON text, no whitespace. */
  function Serialize(v: Value): string
    decreases v
  {
    match v
    case Null => "null"
    case Bool(b) => if b then "true" else "false"
    case Number(n) => Decimal(n)
    case String(s) => Quote(s)
    case Array(items) => "[" + SerializeItems(items) + "]"
    case Object(members) => "{" + SerializeMembers(members) + "}"
  }

  /** The elements of an array, separated by commas. */
  function SerializeItems(items: seq<Value>): string
    decreases items
  {
    if items == [] then ""
    else if |items| == 1 then Serialize(items[0])
    else Serialize(items[0]) + "," + SerializeItems(items[1..])
  }

  /** The members of an object as `"key":value`, separated by commas. */
  function SerializeMembers(members: seq<Member>): string
    decreases members
  {
    if members == [] then ""
    else
      var first := Quote(members[0].key) + ":" + Serialize(members[0].value);
      if |members| == 1 then first else first + "," + SerializeMembers(members[1..])
  }

  /** Escaping leaves no raw control character and touches nothing that needs no escape. */
  lemma {:induction false} EscapeProperties(s: string)
    ensures forall i :: 0 <= i < |Escape(s)| ==> Escape(s)[i] as int >= 0x20
    ensures (forall i :: 0 <= i < |s| ==> !NeedsEscape(s[i])) ==> Escape(s) == s
  {
    if s != [] {
      EscapeProperties(s[1..]);
      var e := EscapeChar(s[0]);
      assert forall i :: 0 <= i < |e| ==> e[i] as int >= 0x20;
      assert Escape(s) == e + Escape(s[1..]);
      forall i | 0 <= i < |Escape(s)|
        ensures Escape(s)[i] as int >= 0x20
      {
        if i >= |e| {
          assert Escape(s)[i] == Escape(s[1..])[i - |e|];
        }
      }
      if forall i :: 0 <= i < |s| ==> !NeedsEscape(s[i]) {
        assert forall i :: 0 <= i < |s[1..]| ==> !NeedsEscape(s[1..][i]);
        assert [s[0]] + s[1..] == s;
      }
    }
  }
}
