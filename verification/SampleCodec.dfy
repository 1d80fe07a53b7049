/** A codec that meets what the persistence theorems ask of the foreign encodings, so that none of
    them holds for want of one. Every part of a version is written as letters, each part so that it
    can be told where it ends. */
module SampleCodec {
  import opened Options
  import opened Text
  import opened Versions
  import opened Persistence

  ghost predicate Letters(s: string) {
    s != "" && forall c :: c in s ==> 'a' <= c <= 'f'
  }

  function Unary(n: nat): (s: string)
    ensures Letters(s)
  {
    if n == 0 then "b" else "a" + Unary(n - 1)
  }

  function Word(text: string): (s: string)
    ensures Letters(s)
  {
    if text == "" then "b" else "a" + Unary(text[0] as nat) + Word(text[1..])
  }

  ghost function SomeKey<T>(m: map<string, T>): (k: string)
    requires m != map[]
    ensures k in m
  {
    var k :| k in m;
    k
  }

  ghost function ClockCode(c: Clock): (s: string)
    ensures Letters(s)
  {
    if c == map[] then "b" else
    var n := SomeKey(c);
    "a" + Word(n) + Unary(c[n]) + ClockCode(c - {n})
  }

  ghost function JsonCode(j: Json): (s: string)
    ensures Letters(s)
    decreases j, 1, 0
  {
    match j
    case Null => "a"
    case Bool(b) => if b then "ba" else "bb"
    case Number(digits) => "c" + Word(digits)
    case String(text) => "d" + Word(text)
    case Array(items) => "e" + ItemsCode(items, j)
    case Object(members) => "f" + MembersCode(members, j)
  }

  ghost function ItemsCode(items: seq<Json>, whole: Json): (s: string)
    requires forall i :: i in items ==> i < whole
    ensures Letters(s)
    decreases whole, 0, |items|
  {
    if items == [] then "b" else
    assert items[0] in items && forall i :: i in items[1..] ==> i in items;
    "a" + JsonCode(items[0]) + ItemsCode(items[1..], whole)
  }

  ghost function MembersCode(members: map<string, Json>, whole: Json): (s: string)
    requires forall f :: f in members ==> members[f] < whole
    ensures Letters(s)
    decreases whole, 0, |members|
  {
    if members == map[] then "b" else
    var f := SomeKey(members);
    "a" + Word(f) + JsonCode(members[f]) + MembersCode(members - {f}, whole)
  }

  ghost function VersionCode(v: Version): (s: string)
    ensures Letters(s)
  {
    JsonCode(Object(v.value)) + ClockCode(v.clock) + Unary(v.timestamp) + Word(v.owner)
  }

  // ---------- each code tells where it ends ----------

  lemma {:induction false} Uncons(a: char, x: string, b: char, y: string)
    requires [a] + x == [b] + y
    ensures a == b && x == y
  {
    assert ([a] + x)[0] == ([b] + y)[0] && ([a] + x)[1..] == x && ([b] + y)[1..] == y;
  }

  lemma {:induction false} UnaryEnds(m: nat, x: string, n: nat, y: string)
    requires Unary(m) + x == Unary(n) + y
    ensures m == n && x == y
  {
    if m == 0 || n == 0 {
      assert (Unary(m) + x)[0] == (Unary(n) + y)[0];
      Uncons('b', x, 'b', y);
    } else {
      assert Unary(m) + x == ['a'] + (Unary(m - 1) + x) && Unary(n) + y == ['a'] + (Unary(n - 1) + y);
      Uncons('a', Unary(m - 1) + x, 'a', Unary(n - 1) + y);
      UnaryEnds(m - 1, x, n - 1, y);
    }
  }

  /** Codes with different first letters differ. */
  lemma {:induction false} FirstLetter(a: string, x: string, b: string, y: string)
    requires a != "" && b != "" && a + x == b + y
    ensures a[0] == b[0] && a[1..] + x == b[1..] + y
  {
    assert (a + x)[0] == a[0] && (b + y)[0] == b[0];
    assert (a + x)[1..] == a[1..] + x && (b + y)[1..] == b[1..] + y;
  }

  lemma {:induction false} Split(a: string, b: string, x: string)
    ensures (a + b) + x == a + (b + x)
  {
  }

  lemma {:induction false} Tail(u: string, v: string, w: string, x: string)
    ensures ("a" + u + v + w)[1..] + x == u + (v + (w + x))
    ensures u == "" ==> "a" + u == "a" && u + (v + (w + x)) == v + (w + x)
  {
    assert "a" + u + v + w == "a" + (u + v + w);
    assert ("a" + (u + v + w))[1..] == u + v + w;
  }

  lemma {:induction false} WordEnds(v: string, x: string, w: string, y: string)
    requires Word(v) + x == Word(w) + y
    ensures v == w && x == y
  {
    FirstLetter(Word(v), x, Word(w), y);
    if v == "" {
      assert "b"[1..] + x == x && "b"[1..] + y == y;
    } else {
      assert Word(v)[1..] == Unary(v[0] as nat) + Word(v[1..]) && Word(w)[1..] == Unary(w[0] as nat) + Word(w[1..]);
      Split(Unary(v[0] as nat), Word(v[1..]), x);
      Split(Unary(w[0] as nat), Word(w[1..]), y);
      UnaryEnds(v[0] as nat, Word(v[1..]) + x, w[0] as nat, Word(w[1..]) + y);
      WordEnds(v[1..], x, w[1..], y);
      assert v == [v[0]] + v[1..] && w == [w[0]] + w[1..];
    }
  }

  lemma {:induction false} ClockEnds(c: Clock, x: string, d: Clock, y: string)
    requires ClockCode(c) + x == ClockCode(d) + y
    ensures c == d && x == y
    decreases |c|
  {
    FirstLetter(ClockCode(c), x, ClockCode(d), y);
    if c == map[] {
      assert "b"[1..] + x == x && "b"[1..] + y == y;
    } else {
      var n, m := SomeKey(c), SomeKey(d);
      var c', d' := c - {n}, d - {m};
      Tail(Word(n), Unary(c[n]), ClockCode(c'), x);
      Tail(Word(m), Unary(d[m]), ClockCode(d'), y);
      WordEnds(n, Unary(c[n]) + (ClockCode(c') + x), m, Unary(d[m]) + (ClockCode(d') + y));
      UnaryEnds(c[n], ClockCode(c') + x, d[m], ClockCode(d') + y);
      ClockEnds(c', x, d', y);
      assert c == c'[n := c[n]] && d == d'[m := d[m]];
    }
  }

  lemma {:induction false} JsonEnds(i: Json, x: string, j: Json, y: string)
    requires JsonCode(i) + x == JsonCode(j) + y
    ensures i == j && x == y
    decreases i, 1, 0
  {
    FirstLetter(JsonCode(i), x, JsonCode(j), y);
    match i
    case Null => assert "a"[1..] + x == x && "a"[1..] + y == y;
    case Bool(b) =>
      FirstLetter(JsonCode(i)[1..], x, JsonCode(j)[1..], y);
      assert "ba"[1..] == "a" && "bb"[1..] == "b";
      assert ""[0..] + x == x && ""[0..] + y == y;
    case Number(digits) =>
      assert JsonCode(i)[1..] == Word(digits) && JsonCode(j)[1..] == Word(j.digits);
      WordEnds(digits, x, j.digits, y);
    case String(text) =>
      assert JsonCode(i)[1..] == Word(text) && JsonCode(j)[1..] == Word(j.s);
      WordEnds(text, x, j.s, y);
    case Array(items) =>
      assert JsonCode(i)[1..] == ItemsCode(items, i) && JsonCode(j)[1..] == ItemsCode(j.items, j);
      ItemsEnd(items, i, x, j.items, j, y);
    case Object(members) =>
      assert JsonCode(i)[1..] == MembersCode(members, i) && JsonCode(j)[1..] == MembersCode(j.members, j);
      MembersEnd(members, i, x, j.members, j, y);
  }

  lemma {:induction false} ItemsEnd(a: seq<Json>, i: Json, x: string, b: seq<Json>, j: Json, y: string)
    requires (forall e :: e in a ==> e < i) && (forall e :: e in b ==> e < j)
    requires ItemsCode(a, i) + x == ItemsCode(b, j) + y
    ensures a == b && x == y
    decreases i, 0, |a|
  {
    FirstLetter(ItemsCode(a, i), x, ItemsCode(b, j), y);
    if a == [] {
      assert "b"[1..] + x == x && "b"[1..] + y == y;
    } else {
      assert a[0] in a && forall e :: e in a[1..] ==> e in a;
      assert b[0] in b && forall e :: e in b[1..] ==> e in b;
      Tail("", JsonCode(a[0]), ItemsCode(a[1..], i), x);
      Tail("", JsonCode(b[0]), ItemsCode(b[1..], j), y);
      JsonEnds(a[0], ItemsCode(a[1..], i) + x, b[0], ItemsCode(b[1..], j) + y);
      ItemsEnd(a[1..], i, x, b[1..], j, y);
      assert a == [a[0]] + a[1..] && b == [b[0]] + b[1..];
    }
  }

  lemma {:induction false} MembersEnd(
      a: map<string, Json>, i: Json, x: string, b: map<string, Json>, j: Json, y: string)
    requires (forall f :: f in a ==> a[f] < i) && (forall f :: f in b ==> b[f] < j)
    requires MembersCode(a, i) + x == MembersCode(b, j) + y
    ensures a == b && x == y
    decreases i, 0, |a|
  {
    FirstLetter(MembersCode(a, i), x, MembersCode(b, j), y);
    if a == map[] {
      assert "b"[1..] + x == x && "b"[1..] + y == y;
    } else {
      var f, g := SomeKey(a), SomeKey(b);
      var a', b' := a - {f}, b - {g};
      Tail(Word(f), JsonCode(a[f]), MembersCode(a', i), x);
      Tail(Word(g), JsonCode(b[g]), MembersCode(b', j), y);
      WordEnds(f, JsonCode(a[f]) + (MembersCode(a', i) + x), g, JsonCode(b[g]) + (MembersCode(b', j) + y));
      JsonEnds(a[f], MembersCode(a', i) + x, b[g], MembersCode(b', j) + y);
      MembersEnd(a', i, x, b', j, y);
      assert a == a'[f := a[f]] && b == b'[g := b[g]];
    }
  }

  lemma {:induction false} Nest(a: string, b: string, c: string, d: string)
    ensures a + b + c + d == a + (b + (c + d))
  {
  }

  lemma {:induction false} VersionEnds(v: Version, w: Version)
    requires VersionCode(v) == VersionCode(w)
    ensures v == w
  {
    var i, j := Object(v.value), Object(w.value);
    var x, y := Unary(v.timestamp) + Word(v.owner), Unary(w.timestamp) + Word(w.owner);
    Nest(JsonCode(i), ClockCode(v.clock), Unary(v.timestamp), Word(v.owner));
    Nest(JsonCode(j), ClockCode(w.clock), Unary(w.timestamp), Word(w.owner));
    JsonEnds(i, ClockCode(v.clock) + x, j, ClockCode(w.clock) + y);
    ClockEnds(v.clock, x, w.clock, y);
    UnaryEnds(v.timestamp, Word(v.owner), w.timestamp, Word(w.owner));
    WordsDiffer(v.owner, w.owner);
  }

  lemma {:induction false} WordsDiffer(v: string, w: string)
    requires Word(v) == Word(w)
    ensures v == w
  {
    assert Word(v) + "" == Word(w) + "";
    WordEnds(v, "", w, "");
  }

  // ---------- the codec ----------

  ghost function ParseVersion(s: string): Option<Version> {
    if v :| VersionCode(v) == s then Some(v) else None
  }

  ghost function Unword(s: string): Option<string> {
    if text :| Word(text) == s then Some(text) else None
  }

  ghost function Sample(): Codec {
    Codec(v => VersionCode(v), s => ParseVersion(s), (text, nonce) => Word(text), s => Unword(s), line => None)
  }

  /** The requirements on the encodings can be met. */
  lemma {:induction false} SampleIsSound()
    ensures Sample().Sound()
  {
    var codec := Sample();
    forall v
      ensures codec.parse(codec.render(v)) == Some(v)
    {
      var w := ParseVersion(VersionCode(v)).value;
      VersionEnds(w, v);
    }
    forall text, nonce
      ensures codec.decrypt(codec.encrypt(text, nonce)) == Some(text)
    {
      var word := Unword(Word(text)).value;
      WordsDiffer(word, text);
    }
    LettersAreVisible();
  }

  lemma {:induction false} LettersAreVisible()
    ensures forall s :: Letters(s) ==> Trimmed(s) && '\n' !in s && forall c :: c in s ==> !IsSpace(c)
  {
    assert forall s: string :: s != "" ==> s[0] in s && s[|s| - 1] in s;
  }
}
