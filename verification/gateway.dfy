/** The string helpers of the payment-gateway URL builder
    (src/modules/transaction/transaction.service.ts): the `yyyyMMddHHmmss`
    date formatter and the key-sorting, value-encoding `privatesortObject`. */
module Gateway {
  import opened Types
  import opened Calendar

  // ---- Decimal digits ----

  predicate IsDigit(ch: char) { '0' <= ch <= '9' }

  predicate AllDigits(s: string) { forall i | 0 <= i < |s| :: IsDigit(s[i]) }

  function DigitChar(d: nat): (ch: char)
    requires d < 10
    ensures IsDigit(ch)
  {
    ['0', '1', '2', '3', '4', '5', '6', '7', '8', '9'][d]
  }

  function DigitValue(ch: char): nat
    requires IsDigit(ch)
  {
    (ch as int - '0' as int) as nat
  }

  /** `String(n)` for a non-negative integer: its decimal digits, most
      significant first, with no leading zero. */
  function Digits(n: nat): (r: string)
    ensures AllDigits(r) && |r| >= 1
    ensures n < 10 ==> |r| == 1
    ensures 10 <= n < 100 ==> |r| == 2
    ensures 100 <= n < 1000 ==> |r| == 3
    ensures 1000 <= n < 10000 ==> |r| == 4
    ensures n >= 10 ==> r[0] != '0'
  {
    if n < 10 then [DigitChar(n)] else Digits(n / 10) + [DigitChar(n % 10)]
  }

  /** The number a digit string denotes. */
  function Value(s: string): nat
    requires AllDigits(s)
  {
    if |s| == 0 then 0 else Value(s[..|s| - 1]) * 10 + DigitValue(s[|s| - 1])
  }

  lemma {:induction false} DigitsValue(n: nat)
    ensures Value(Digits(n)) == n
  {
    if n >= 10 {
      var q, d := n / 10, n % 10;
      var r := Digits(n);
      DigitsValue(q);
      assert r == Digits(q) + [DigitChar(d)];
      assert r[..|r| - 1] == Digits(q);
      DigitRoundTrip(d);
      assert Value(r) == Value(Digits(q)) * 10 + d;
    } else {
      DigitRoundTrip(n);
    }
  }

  lemma DigitRoundTrip(d: nat)
    requires d < 10
    ensures DigitValue(DigitChar(d)) == d
  {
  }

  /** `String(n).padStart(2, '0')`. */
  function Pad2(n: nat): (r: string)
    ensures AllDigits(r)
    ensures n < 100 ==> |r| == 2
    ensures n >= 100 ==> r == Digits(n)
  {
    if n < 10 then "0" + Digits(n) else Digits(n)
  }

  lemma Pad2Value(n: nat)
    requires n < 100
    ensures Value(Pad2(n)) == n
  {
    DigitsValue(n);
    if n < 10 {
      var r := Pad2(n);
      assert r[..1] == "0";
      assert Value(r[..1]) == 0;
    }
  }

  /** `getFullYear()` as text: unpadded, with a minus sign before a
      negative year. */
  function YearText(y: int): (r: string)
    ensures y >= 0 ==> r == Digits(y)
    ensures y < 0 ==> r == "-" + Digits(-y)
  {
    if y < 0 then "-" + Digits(-y) else Digits(y)
  }

  // ---- formatDate ----

  /** Civil fields as `${year}${month}${day}${hours}${minutes}${seconds}`,
      every field but the year padded to two digits. */
  function Stamp(dt: DateTime): (r: string)
    requires ValidDateTime(dt)
    ensures 1000 <= dt.year <= 9999 ==> |r| == 14 && AllDigits(r)
    ensures dt.year < 0 ==> |r| > 0 && r[0] == '-'
  {
    YearText(dt.year) + Pad2(dt.month) + Pad2(dt.day) + Pad2(dt.hour) + Pad2(dt.minute) + Pad2(dt.second)
  }

  /** The instant `t` as `formatDate` renders it (local wall-clock
      fields, like every `Time` of this model). */
  function FormatDate(t: Time): (r: string)
    ensures 1000 <= ToCivil(t).year <= 9999 ==> |r| == 14 && AllDigits(r)
  {
    Stamp(ToCivil(t))
  }

  /** Reads a 14-digit `yyyyMMddHHmmss` string back into civil fields. */
  function ParseDate(s: string): (r: Option<DateTime>)
    ensures r.Some? <==> |s| == 14 && AllDigits(s)
  {
    if |s| == 14 && AllDigits(s) then
      Some(DateTime(Value(s[0..4]), Value(s[4..6]), Value(s[6..8]), Value(s[8..10]), Value(s[10..12]), Value(s[12..14])))
    else None
  }

  /** The fields sit at fixed offsets of a stamp with a four-digit year. */
  lemma StampFields(dt: DateTime)
    requires ValidDateTime(dt) && 1000 <= dt.year <= 9999
    ensures var s := Stamp(dt);
      && s[0..4] == Digits(dt.year) && s[4..6] == Pad2(dt.month) && s[6..8] == Pad2(dt.day)
      && s[8..10] == Pad2(dt.hour) && s[10..12] == Pad2(dt.minute) && s[12..14] == Pad2(dt.second)
  {
    var y, mo, d, h, mi, se := YearText(dt.year), Pad2(dt.month), Pad2(dt.day), Pad2(dt.hour), Pad2(dt.minute), Pad2(dt.second);
    var s := y + mo + d + h + mi + se;
    assert s == Stamp(dt);
    assert s[0..4] == y;
    assert s[4..6] == mo;
    assert s[6..8] == d;
    assert s[8..10] == h;
    assert s[10..12] == mi;
    assert s[12..14] == se;
  }

  /** Parsing a stamp with a four-digit year gives back its fields. */
  lemma StampRoundTrip(dt: DateTime)
    requires ValidDateTime(dt) && 1000 <= dt.year <= 9999
    ensures ParseDate(Stamp(dt)) == Some(dt)
  {
    StampFields(dt);
    DigitsValue(dt.year);
    Pad2Value(dt.month);
    Pad2Value(dt.day);
    Pad2Value(dt.hour);
    Pad2Value(dt.minute);
    Pad2Value(dt.second);
  }

  /** For a four-digit year the formatted string determines the instant:
      parsing it gives back the civil fields, and they give back `t`. */
  lemma FormatDateRoundTrip(t: Time)
    requires 1000 <= ToCivil(t).year <= 9999
    ensures ParseDate(FormatDate(t)) == Some(ToCivil(t))
    ensures FromCivil(ParseDate(FormatDate(t)).value) == t
  {
    StampRoundTrip(ToCivil(t));
  }

  // ---- Replacing "%20" by "+" ----

  predicate StartsPct20(s: string) { |s| >= 3 && s[0] == '%' && s[1] == '2' && s[2] == '0' }

  /** Some occurrence of "%20" in `s`. */
  predicate HasPct20(s: string) { exists i | 0 <= i < |s| :: StartsPct20(s[i..]) }

  /** `.replace(/%20/g, "+")`: every occurrence, scanning left to right. */
  function Replace20(s: string): (r: string)
    ensures |s| == 0 ==> r == []
    ensures |s| > 0 ==> |r| > 0 && r[0] == (if StartsPct20(s) then '+' else s[0])
    ensures |r| <= |s|
  {
    if |s| == 0 then []
    else if StartsPct20(s) then "+" + Replace20(s[3..])
    else [s[0]] + Replace20(s[1..])
  }

  /** No "%20" survives the replacement. */
  lemma {:induction false} Replace20Complete(s: string)
    ensures !HasPct20(Replace20(s))
  {
    if |s| > 0 {
      var r := Replace20(s);
      var tail := if StartsPct20(s) then s[3..] else s[1..];
      Replace20Complete(tail);
      assert r == [r[0]] + Replace20(tail);
      forall i | 0 <= i < |r| ensures !StartsPct20(r[i..]) {
        if i > 0 {
          assert r[i..] == Replace20(tail)[i - 1..];
        } else if |r| >= 3 && r[0] == '%' {
          Replace20Keeps20(s[1..]);
          assert !(r[1] == '2' && r[2] == '0');
        }
      }
    }
  }

  /** A replaced string begins with "20" only if the original does. */
  lemma Replace20Keeps20(t: string)
    ensures |Replace20(t)| >= 2 && Replace20(t)[0] == '2' && Replace20(t)[1] == '0' ==>
      |t| >= 2 && t[0] == '2' && t[1] == '0'
  {
    if |t| > 0 && !StartsPct20(t) {
      assert Replace20(t) == [t[0]] + Replace20(t[1..]);
    }
  }

  /** Turns every '+' back into "%20". */
  function Restore(s: string): (r: string)
    ensures '+' !in s ==> r == s
  {
    if |s| == 0 then []
    else if s[0] == '+' then "%20" + Restore(s[1..])
    else [s[0]] + Restore(s[1..])
  }

  /** On a string without '+' (every output of `encodeURIComponent` is one)
      the replacement loses nothing. */
  lemma {:induction false} Replace20Restore(s: string)
    requires '+' !in s
    ensures Restore(Replace20(s)) == s
  {
    if |s| > 0 {
      if StartsPct20(s) {
        assert '+' !in s[3..];
        Replace20Restore(s[3..]);
        assert s == "%20" + s[3..];
      } else {
        assert '+' !in s[1..];
        Replace20Restore(s[1..]);
        assert s == [s[0]] + s[1..];
      }
    }
  }

  // ---- Sort order on strings ----

  /** `Array.prototype.sort` on strings: lexicographic, a proper prefix
      first. Characters compare by code point; JavaScript compares UTF-16
      code units, which agree on the ASCII keys `encodeURIComponent`
      produces. */
  predicate Less(a: string, b: string)
  {
    if |a| == 0 then |b| > 0
    else if |b| == 0 then false
    else if a[0] != b[0] then a[0] < b[0]
    else Less(a[1..], b[1..])
  }

  lemma {:induction false} LessIrreflexive(a: string)
    ensures !Less(a, a)
  {
    if |a| > 0 {
      LessIrreflexive(a[1..]);
    }
  }

  lemma {:induction false} LessTransitive(a: string, b: string, c: string)
    requires Less(a, b) && Less(b, c)
    ensures Less(a, c)
  {
    if |a| > 0 && |b| > 0 && |c| > 0 && a[0] == b[0] && b[0] == c[0] {
      LessTransitive(a[1..], b[1..], c[1..]);
    }
  }

  lemma {:induction false} LessTotal(a: string, b: string)
    requires a != b
    ensures Less(a, b) || Less(b, a)
  {
    if |a| > 0 && |b| > 0 && a[0] == b[0] {
      assert a == [a[0]] + a[1..] && b == [b[0]] + b[1..];
      LessTotal(a[1..], b[1..]);
    }
  }

  predicate Ascending(keys: seq<string>)
  {
    forall i, j | 0 <= i < j < |keys| :: Less(keys[i], keys[j])
  }

  /** Adds `k` to an ascending key list; a key already present is kept once,
      as assigning an object property twice does. */
  function InsertKey(k: string, keys: seq<string>): (r: seq<string>)
    requires Ascending(keys)
    ensures Ascending(r)
    ensures forall x :: x in r <==> x == k || x in keys
    ensures |r| <= |keys| + 1
  {
    if |keys| == 0 then [k]
    else if k == keys[0] then keys
    else if Less(k, keys[0]) then
      assert forall j | 0 <= j < |keys| :: Less(k, keys[j]) by {
        forall j | 0 <= j < |keys| ensures Less(k, keys[j]) {
          if j > 0 { LessTransitive(k, keys[0], keys[j]); }
        }
      }
      [k] + keys
    else
      LessTotal(k, keys[0]);
      var rest := InsertKey(k, keys[1..]);
      assert forall x | x in keys[1..] :: Less(keys[0], x);
      [keys[0]] + rest
  }

  /** `Object.keys(obj).map(encodeURIComponent).sort()`, duplicates merged. */
  function SortedKeys(keys: seq<string>, enc: string -> string): (r: seq<string>)
    ensures Ascending(r)
    ensures forall x :: x in r <==> exists i | 0 <= i < |keys| :: enc(keys[i]) == x
  {
    if |keys| == 0 then []
    else
      var r := InsertKey(enc(keys[0]), SortedKeys(keys[1..], enc));
      assert forall i | 1 <= i < |keys| :: keys[i] == keys[1..][i - 1];
      assert forall x | x in r :: exists i | 0 <= i < |keys| :: enc(keys[i]) == x by {
        forall x | x in r ensures exists i | 0 <= i < |keys| :: enc(keys[i]) == x {
          if x != enc(keys[0]) {
            var i :| 0 <= i < |keys[1..]| && enc(keys[1..][i]) == x;
            assert enc(keys[i + 1]) == x;
          }
        }
      }
      r
  }

  // ---- privatesortObject ----

  /** An object as its own keys in `Object.keys` order (distinct) and the
      `String(...)` of each value. */
  datatype Entry = Entry(key: string, value: string)

  predicate DistinctKeys(obj: seq<Entry>)
  {
    forall i, j | 0 <= i < j < |obj| :: obj[i].key != obj[j].key
  }

  function KeysOf(obj: seq<Entry>): (r: seq<string>)
    ensures |r| == |obj| && forall i | 0 <= i < |obj| :: r[i] == obj[i].key
  {
    seq(|obj|, i requires 0 <= i < |obj| => obj[i].key)
  }

  /** `String(obj[key])`: the value, or "undefined" for a missing key. */
  function Lookup(obj: seq<Entry>, key: string): (r: string)
    ensures (forall i | 0 <= i < |obj| :: obj[i].key != key) ==> r == "undefined"
    ensures forall i | 0 <= i < |obj| && obj[i].key == key && DistinctKeys(obj) :: r == obj[i].value
  {
    if |obj| == 0 then "undefined"
    else if obj[0].key == key then obj[0].value
    else
      assert DistinctKeys(obj) ==> DistinctKeys(obj[1..]);
      Lookup(obj[1..], key)
  }

  /** The sorted object: the encoded keys in ascending order, each with its
      original value encoded and "%20" turned into "+". `enc` and `dec`
      stand for `encodeURIComponent` and `decodeURIComponent`. */
  function SortObject(obj: seq<Entry>, enc: string -> string, dec: string -> string): (r: seq<Entry>)
    ensures Ascending(KeysOf(r))
    ensures forall x :: x in KeysOf(r) <==> exists i | 0 <= i < |obj| :: enc(obj[i].key) == x
    ensures forall i | 0 <= i < |r| :: r[i].value == Replace20(enc(Lookup(obj, dec(r[i].key))))
  {
    var keys := SortedKeys(KeysOf(obj), enc);
    var r := seq(|keys|, i requires 0 <= i < |keys| => Entry(keys[i], Replace20(enc(Lookup(obj, dec(keys[i]))))));
    assert KeysOf(r) == keys;
    r
  }

  /** When decoding undoes encoding, each original entry shows up exactly
      once under its encoded key, with its own value encoded. */
  lemma SortObjectEntries(obj: seq<Entry>, enc: string -> string, dec: string -> string, i: int)
    requires DistinctKeys(obj)
    requires forall k :: dec(enc(k)) == k
    requires 0 <= i < |obj|
    ensures exists j | 0 <= j < |SortObject(obj, enc, dec)| ::
      SortObject(obj, enc, dec)[j] == Entry(enc(obj[i].key), Replace20(enc(obj[i].value)))
  {
    var r := SortObject(obj, enc, dec);
    var k := enc(obj[i].key);
    assert k in KeysOf(r);
    var j :| 0 <= j < |r| && KeysOf(r)[j] == k;
    assert dec(r[j].key) == obj[i].key;
  }
}
