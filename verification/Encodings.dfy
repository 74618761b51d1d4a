/** The text that is signed for a transaction, and the base64 conversions of token signatures. */
module Encodings {
  import Decimals

  // ---------------------------------------------------------------- canonical transaction text

  datatype Option<T> = None | Some(value: T)

  /** The signed fields of a transaction; amount and fee in units, the time in milliseconds. */
  datatype Signed = Signed(id: string, from: string, to: string, amount: nat, fee: nat,
                           relay: Option<string>, kind: string, timestamp: nat)

  /** Fields joined by colons. */
  function Join(fields: seq<string>): string {
    if fields == [] then ""
    else if |fields| == 1 then fields[0]
    else fields[0] + ":" + Join(fields[1..])
  }

  /** An absent relay is written as an empty one. */
  function RelayText(t: Signed): string {
    if t.relay.Some? then t.relay.value else ""
  }

  function Fields(t: Signed): seq<string> {
    [t.id, t.from, t.to, Decimals.Amount(t.amount), Decimals.Amount(t.fee), RelayText(t), t.kind,
     Decimals.Whole(t.timestamp)]
  }

  function Canonical(t: Signed): string {
    Join(Fields(t))
  }

  predicate ColonFree(fields: seq<string>) {
    forall i | 0 <= i < |fields| :: ':' !in fields[i]
  }

  function Colons(s: string): nat {
    if s == "" then 0 else (if s[0] == ':' then 1 else 0) + Colons(s[1..])
  }

  function FieldColons(fields: seq<string>): nat {
    if fields == [] then 0 else Colons(fields[0]) + FieldColons(fields[1..])
  }

  lemma {:induction false} ColonsConcat(a: string, b: string)
    ensures Colons(a + b) == Colons(a) + Colons(b)
  {
    if a == "" { assert a + b == b; }
    else {
      ColonsConcat(a[1..], b);
      assert (a + b)[1..] == a[1..] + b;
    }
  }

  lemma {:induction false} ColonsZero(s: string)
    ensures Colons(s) == 0 <==> ':' !in s
  {
    if s != "" {
      ColonsZero(s[1..]);
      assert s == [s[0]] + s[1..];
    }
  }

  lemma {:induction false} FieldColonsZero(fields: seq<string>)
    ensures FieldColons(fields) == 0 <==> ColonFree(fields)
  {
    if fields != [] {
      FieldColonsZero(fields[1..]);
      ColonsZero(fields[0]);
      assert forall i | 0 < i < |fields| :: fields[i] == fields[1..][i - 1];
      if ColonFree(fields) { assert ColonFree(fields[1..]); }
    }
  }

  lemma {:induction false} JoinColons(fields: seq<string>)
    requires fields != []
    ensures Colons(Join(fields)) == FieldColons(fields) + |fields| - 1
  {
    if |fields| > 1 {
      JoinColons(fields[1..]);
      ColonsConcat(fields[0] + ":", Join(fields[1..]));
      ColonsConcat(fields[0], ":");
    }
  }

  /** Two colon-free prefixes that each end at a colon of the same text are the same. */
  lemma SplitAtColon(a: string, b: string, x: string, y: string)
    requires ':' !in a && ':' !in b && a + ":" + x == b + ":" + y
    ensures a == b && x == y
  {
    var s := a + ":" + x;
    assert s[|a|] == ':' && s[|b|] == ':';
    assert a == s[..|a|] && b == s[..|b|] && x == s[|a| + 1..] && y == s[|b| + 1..];
  }

  lemma {:induction false} JoinInjective(a: seq<string>, b: seq<string>)
    requires |a| == |b| && ColonFree(a) && ColonFree(b) && Join(a) == Join(b)
    ensures a == b
  {
    if |a| > 1 {
      SplitAtColon(a[0], b[0], Join(a[1..]), Join(b[1..]));
      JoinInjective(a[1..], b[1..]);
      assert a == [a[0]] + a[1..] && b == [b[0]] + b[1..];
    }
  }

  /** No other list of as many fields has the same text. */
  ghost predicate Unambiguous(fields: seq<string>) {
    forall other: seq<string> | |other| == |fields| && Join(other) == Join(fields) :: other == fields
  }

  /** Moving the text around a colon across the boundary of two neighbouring fields leaves the joined text alone. */
  lemma {:induction false} ShiftColon(fields: seq<string>, i: nat, a: string, b: string, c: string)
    requires i + 1 < |fields|
    ensures Join(fields[i := a + ":" + b][i + 1 := c]) == Join(fields[i := a][i + 1 := b + ":" + c])
    decreases |fields|
  {
    var p, q := fields[i := a + ":" + b][i + 1 := c], fields[i := a][i + 1 := b + ":" + c];
    if i == 0 {
      assert p[1..] == [c] + fields[2..] && q[1..] == [b + ":" + c] + fields[2..];
      if |fields| == 2 {
        assert p[1..] == [c] && q[1..] == [b + ":" + c];
        assert a + ":" + b + ":" + c == a + ":" + (b + ":" + c);
      } else {
        assert p[1..][1..] == fields[2..] && q[1..][1..] == fields[2..];
        var rest := Join(fields[2..]);
        assert Join(p) == (a + ":" + b) + ":" + (c + ":" + rest);
        assert Join(q) == a + ":" + ((b + ":" + c) + ":" + rest);
      }
    } else {
      assert p[1..] == fields[1..][i - 1 := a + ":" + b][i := c];
      assert q[1..] == fields[1..][i - 1 := a][i := b + ":" + c];
      ShiftColon(fields[1..], i - 1, a, b, c);
    }
  }

  /** A field with a colon can be read in a second way. */
  lemma {:induction false} ColonIsAmbiguous(fields: seq<string>, i: nat) returns (other: seq<string>)
    requires |fields| > 1 && i < |fields| && ':' in fields[i]
    ensures |other| == |fields| && other != fields && Join(other) == Join(fields)
  {
    var f := fields[i];
    var k :| 0 <= k < |f| && f[k] == ':';
    var a, b := f[..k], f[k + 1..];
    assert f == a + ":" + b;
    if i + 1 < |fields| {
      var c := fields[i + 1];
      ShiftColon(fields, i, a, b, c);
      assert fields[i := a + ":" + b][i + 1 := c] == fields;
      other := fields[i := a][i + 1 := b + ":" + c];
      assert other[i] != fields[i];
    } else {
      var z := fields[i - 1];
      ShiftColon(fields, i - 1, z, a, b);
      assert fields[i - 1 := z][i := a + ":" + b] == fields;
      other := fields[i - 1 := z + ":" + a][i := b];
      assert other[i] != fields[i];
    }
  }

  /** The joined text is unambiguous iff no field contains the separator. */
  lemma {:induction false} UnambiguousExactly(fields: seq<string>)
    requires |fields| > 1
    ensures Unambiguous(fields) <==> ColonFree(fields)
  {
    if ColonFree(fields) {
      forall other: seq<string> | |other| == |fields| && Join(other) == Join(fields)
        ensures other == fields
      {
        JoinColons(fields);
        JoinColons(other);
        FieldColonsZero(fields);
        FieldColonsZero(other);
        JoinInjective(other, fields);
      }
    } else {
      var i :| 0 <= i < |fields| && ':' in fields[i];
      var other := ColonIsAmbiguous(fields, i);
    }
  }

  /** The parts of a text between its colons. */
  function Split(s: string): seq<string> {
    if s == "" then [""]
    else
      var rest := Split(s[1..]);
      if s[0] == ':' then [""] + rest
      else if rest == [] then [[s[0]]]
      else [[s[0]] + rest[0]] + rest[1..]
  }

  lemma {:induction false} SplitPlain(a: string)
    requires ':' !in a
    ensures Split(a) == [a]
  {
    if a != "" {
      SplitPlain(a[1..]);
      assert a == [a[0]] + a[1..];
    }
  }

  lemma {:induction false} SplitFirst(a: string, rest: string)
    requires ':' !in a
    ensures Split(a + ":" + rest) == [a] + Split(rest)
  {
    var s := a + ":" + rest;
    if a == "" {
      assert s[1..] == rest;
    } else {
      SplitFirst(a[1..], rest);
      assert s[1..] == a[1..] + ":" + rest;
      assert a == [a[0]] + a[1..];
    }
  }

  lemma {:induction false} SplitJoin(fields: seq<string>)
    requires fields != [] && ColonFree(fields)
    ensures Split(Join(fields)) == fields
  {
    if |fields| == 1 {
      SplitPlain(fields[0]);
    } else {
      SplitJoin(fields[1..]);
      SplitFirst(fields[0], Join(fields[1..]));
      assert fields == [fields[0]] + fields[1..];
    }
  }

  /** The signed text, split at its colons, shows every field at its place. */
  lemma {:induction false} CanonicalParts(t: Signed)
    requires ColonFree([t.id, t.from, t.to, RelayText(t), t.kind])
    ensures var parts := Split(Canonical(t));
            && |parts| == 8 && parts[0] == t.id && parts[1] == t.from && parts[2] == t.to
            && parts[3] == Decimals.Amount(t.amount) && parts[4] == Decimals.Amount(t.fee)
            && parts[5] == (if t.relay == None then "" else t.relay.value)
            && parts[6] == t.kind && parts[7] == Decimals.Whole(t.timestamp)
  {
    NumbersColonFree(t);
    SplitJoin(Fields(t));
  }

  /** The same transaction, up to an absent and an empty relay. */
  predicate SameSigned(t: Signed, u: Signed) {
    u.(relay := t.relay) == t && RelayText(u) == RelayText(t)
  }

  /** Printed numbers have no colon, so only the texts can. */
  lemma {:induction false} NumbersColonFree(t: Signed)
    ensures ColonFree(Fields(t)) <==> ColonFree([t.id, t.from, t.to, RelayText(t), t.kind])
  {
    var f, texts := Fields(t), [t.id, t.from, t.to, RelayText(t), t.kind];
    Decimals.AmountLetters(t.amount);
    Decimals.AmountLetters(t.fee);
    Decimals.WholeInjective(0, t.timestamp);
    assert f[0] == texts[0] && f[1] == texts[1] && f[2] == texts[2] && f[5] == texts[3] && f[6] == texts[4];
    assert ':' !in f[3] && ':' !in f[4] && ':' !in f[7];
  }

  lemma {:induction false} FieldsInjective(t: Signed, u: Signed)
    requires Fields(t) == Fields(u)
    ensures SameSigned(t, u)
  {
    var f, g := Fields(t), Fields(u);
    assert f[0] == g[0] && f[1] == g[1] && f[2] == g[2] && f[3] == g[3]
        && f[4] == g[4] && f[5] == g[5] && f[6] == g[6] && f[7] == g[7];
    Decimals.AmountInjective(t.amount, u.amount);
    Decimals.AmountInjective(t.fee, u.fee);
    Decimals.WholeInjective(t.timestamp, u.timestamp);
  }

  /** The signed text determines the whole transaction, numbers included, up to an absent and an empty relay. */
  lemma {:induction false} CanonicalInjective(t: Signed, u: Signed)
    requires ColonFree([t.id, t.from, t.to, RelayText(t), t.kind]) && Canonical(t) == Canonical(u)
    ensures SameSigned(t, u)
  {
    NumbersColonFree(t);
    UnambiguousExactly(Fields(t));
    assert Fields(u) == Fields(t);
    FieldsInjective(t, u);
  }

  /** The transaction with two neighbouring texts replaced: id and sender, sender and recipient, or relay and kind. */
  function Retold(t: Signed, i: nat, x: string, y: string): Signed
    requires i in {0, 1, 5}
  {
    if i == 0 then t.(id := x, from := y)
    else if i == 1 then t.(from := x, to := y)
    else t.(relay := Some(x), kind := y)
  }

  lemma {:induction false} RetoldFields(t: Signed, i: nat, x: string, y: string)
    requires i in {0, 1, 5}
    ensures Fields(Retold(t, i, x, y)) == Fields(t)[i := x][i + 1 := y]
  {
  }

  lemma {:induction false} SameSignedFields(t: Signed, u: Signed)
    ensures SameSigned(t, u) ==> Fields(u) == Fields(t)
  {
  }

  /** A colon in one of two neighbouring texts lets the same signed text stand for a second transaction. */
  lemma {:induction false} SecondReading(t: Signed, i: nat) returns (u: Signed)
    requires i in {0, 1, 5} && (':' in Fields(t)[i] || ':' in Fields(t)[i + 1])
    ensures Canonical(u) == Canonical(t) && !SameSigned(t, u)
  {
    var f := Fields(t);
    var x, y := f[i], f[i + 1];
    assert f[i := x][i + 1 := y] == f;
    if ':' in x {
      var k :| 0 <= k < |x| && x[k] == ':';
      var a, b := x[..k], x[k + 1..];
      assert x == a + ":" + b;
      u := Retold(t, i, a, b + ":" + y);
      RetoldFields(t, i, a, b + ":" + y);
      ShiftColon(f, i, a, b, y);
      assert Fields(u)[i] == a != x;
    } else {
      var k :| 0 <= k < |y| && y[k] == ':';
      var a, b := y[..k], y[k + 1..];
      assert y == a + ":" + b;
      u := Retold(t, i, x + ":" + a, b);
      RetoldFields(t, i, x + ":" + a, b);
      ShiftColon(f, i, x, a, b);
      assert Fields(u)[i + 1] == b != y;
    }
    SameSignedFields(t, u);
  }

  /** The signed text stands for one transaction only iff none of its texts contains the separator. */
  lemma {:induction false} CanonicalExactly(t: Signed)
    ensures (forall u: Signed | Canonical(u) == Canonical(t) :: SameSigned(t, u))
            <==> ColonFree([t.id, t.from, t.to, RelayText(t), t.kind])
  {
    if ColonFree([t.id, t.from, t.to, RelayText(t), t.kind]) {
      forall u: Signed | Canonical(u) == Canonical(t)
        ensures SameSigned(t, u)
      {
        CanonicalInjective(t, u);
      }
    } else {
      var i := if ':' in t.id || ':' in t.from then 0 else if ':' in t.to then 1 else 5;
      var u := SecondReading(t, i);
    }
  }

  // ---------------------------------------------------------------- base64 and base64url

  function Swap(s: string, a: char, b: char): (r: string)
    ensures |r| == |s| && forall i | 0 <= i < |s| :: r[i] == if s[i] == a then b else s[i]
  {
    seq(|s|, i requires 0 <= i < |s| => if s[i] == a then b else s[i])
  }

  /** Drop all trailing padding. */
  function Strip(s: string): string {
    if s != "" && s[|s| - 1] == '=' then Strip(s[..|s| - 1]) else s
  }

  /** The padding that completes a text to a multiple of four. */
  function Padding(n: nat): string {
    match n % 4
    case 0 => ""
    case 1 => "==="
    case 2 => "=="
    case _ => "="
  }

  lemma PaddingShape(n: nat)
    ensures |Padding(n)| <= 3 && (n + |Padding(n)|) % 4 == 0 && forall i | 0 <= i < |Padding(n)| :: Padding(n)[i] == '='
  {
  }

  function UrlAlphabet(s: string): (r: string)
    ensures |r| == |s| && forall i | 0 <= i < |s| :: r[i] == if s[i] == '+' then '-' else if s[i] == '/' then '_' else s[i]
  {
    Swap(Swap(s, '+', '-'), '/', '_')
  }

  function PlainAlphabet(s: string): (r: string)
    ensures |r| == |s| && forall i | 0 <= i < |s| :: r[i] == if s[i] == '-' then '+' else if s[i] == '_' then '/' else s[i]
  {
    Swap(Swap(s, '-', '+'), '_', '/')
  }

  function ToUrl(b64: string): string {
    Strip(UrlAlphabet(b64))
  }

  function FromUrl(url: string): string {
    PlainAlphabet(url) + Padding(|url|)
  }

  lemma {:induction false} StripShape(s: string)
    ensures |Strip(s)| <= |s| && Strip(s) == s[..|Strip(s)|]
    ensures forall i | |Strip(s)| <= i < |s| :: s[i] == '='
    ensures Strip(s) != "" ==> Strip(s)[|Strip(s)| - 1] != '='
  {
    if s != "" && s[|s| - 1] == '=' { StripShape(s[..|s| - 1]); }
  }

  lemma StripUnique(s: string, n: nat)
    requires n <= |s| && (forall i | n <= i < |s| :: s[i] == '=') && (n > 0 ==> s[n - 1] != '=')
    ensures Strip(s) == s[..n]
  {
  }

  lemma FromUrlShape(u: string)
    ensures var b := FromUrl(u);
            && |u| <= |b| <= |u| + 3 && |b| % 4 == 0
            && (forall i | |u| <= i < |b| :: b[i] == '=')
            && (forall i | 0 <= i < |u| :: b[i] == PlainAlphabet(u)[i])
  {
  }

  lemma ToUrlShape(s: string)
    ensures |Strip(s)| <= |s| && |ToUrl(s)| == |Strip(s)|
    ensures forall i | 0 <= i < |Strip(s)| :: ToUrl(s)[i] == UrlAlphabet(s)[i]
  {
    StripShape(s);
    StripUnique(UrlAlphabet(s), |Strip(s)|);
  }

  /** There and back, character by character: the stripped text with '-' and '_' replaced, padded to a multiple of four. */
  lemma ThereAndBack(s: string)
    ensures var back, n := FromUrl(ToUrl(s)), |Strip(s)|;
            && n <= |s| && n <= |back| <= n + 3 && |back| % 4 == 0
            && (forall i | n <= i < |back| :: back[i] == '=')
            && (forall i | 0 <= i < n :: back[i] == if s[i] == '-' then '+' else if s[i] == '_' then '/' else s[i])
  {
    ToUrlShape(s);
    FromUrlShape(ToUrl(s));
  }

  /** Padded base64 survives the trip to base64url and back iff it uses the plain alphabet and is padded as it should be. */
  lemma {:induction false} UrlRoundTripExactly(s: string)
    ensures FromUrl(ToUrl(s)) == s <==>
            '-' !in s && '_' !in s && |s| % 4 == 0 && |s| - |Strip(s)| <= 3
  {
    var back, n := FromUrl(ToUrl(s)), |Strip(s)|;
    ThereAndBack(s);
    StripShape(s);
    if '-' !in s && '_' !in s && |s| % 4 == 0 && |s| - n <= 3 {
      SameMultiple(n, |back|, |s|);
      assert forall i | 0 <= i < n :: s[i] in s && back[i] == s[i];
    }
  }

  lemma SameMultiple(n: nat, a: nat, b: nat)
    requires n <= a <= n + 3 && n <= b <= n + 3 && a % 4 == 0 && b % 4 == 0
    ensures a == b
  {
  }

  /** In particular every well-formed padded base64 text survives. */
  lemma WellFormedRoundTrip(body: string, pads: string)
    requires forall c | c in body :: 'A' <= c <= 'Z' || 'a' <= c <= 'z' || '0' <= c <= '9' || c == '+' || c == '/'
    requires pads in {"", "=", "=="} && |body + pads| % 4 == 0
    ensures FromUrl(ToUrl(body + pads)) == body + pads
  {
    var s := body + pads;
    assert forall c | c in s :: c in body || c == '=';
    if body != "" { assert body[|body| - 1] in body; }
    StripUnique(s, |body|);
    UrlRoundTripExactly(s);
  }

  /** Unpadded base64url survives the trip to base64 and back iff it uses the URL alphabet and carries no padding. */
  lemma Base64RoundTripExactly(u: string)
    ensures ToUrl(FromUrl(u)) == u <==> '+' !in u && '/' !in u && (u == "" || u[|u| - 1] != '=')
  {
    var b := FromUrl(u);
    var w := UrlAlphabet(b);
    PaddingShape(|u|);
    StripShape(w);
    assert forall i | 0 <= i < |u| :: w[i] == if u[i] == '+' then '-' else if u[i] == '/' then '_' else u[i];
    assert forall i | |u| <= i < |w| :: w[i] == '=';
    if u == "" || u[|u| - 1] != '=' {
      StripUnique(w, |u|);
      assert ToUrl(b) == w[..|u|];
      if '+' !in u && '/' !in u {
        assert forall i | 0 <= i < |u| :: u[i] in u && w[i] == u[i];
      }
    }
  }

  /** The letter of a six-bit value: the last two are those of base64 or base64url (sections 4 and 5 of RFC 4648). */
  function Letter(v: nat, last: string): (c: char)
    requires v < 64 && |last| == 2
  {
    if v < 26 then 'A' + v as char
    else if v < 52 then 'a' + (v - 26) as char
    else if v < 62 then '0' + (v - 52) as char
    else last[v - 62]
  }

  const STANDARD := "+/"
  const URL_SAFE := "-_"

  /** The text spells the six-bit values in an alphabet. */
  predicate Spells(last: string, s: string, sextets: seq<nat>)
    requires |last| == 2
  {
    |s| == |sextets| && forall i | 0 <= i < |s| :: sextets[i] < 64 && s[i] == Letter(sextets[i], last)
  }

  /** The conversions keep what the text spells: base64url to padded base64. */
  lemma {:induction false} FromUrlSpells(url: string, sextets: seq<nat>)
    requires Spells(URL_SAFE, url, sextets)
    ensures var b64 := FromUrl(url);
            && |b64| % 4 == 0 && |url| <= |b64| <= |url| + 3 && Spells(STANDARD, b64[..|url|], sextets)
            && forall i | |url| <= i < |b64| :: b64[i] == '='
  {
    FromUrlShape(url);
  }

  /** And padded base64 to base64url. */
  lemma {:induction false} ToUrlSpells(body: string, pads: string, sextets: seq<nat>)
    requires Spells(STANDARD, body, sextets) && forall i | 0 <= i < |pads| :: pads[i] == '='
    ensures Spells(URL_SAFE, ToUrl(body + pads), sextets)
  {
    var s := body + pads;
    assert body != "" ==> body[|body| - 1] == Letter(sextets[|body| - 1], STANDARD);
    StripUnique(s, |body|);
    ToUrlShape(s);
    assert Strip(s) == body;
  }

  /** The conversion as it is computed, with its padding loop. */
  method Base64UrlToBase64(url: string) returns (b64: string)
    ensures b64 == FromUrl(url)
  {
    b64 := PlainAlphabet(url);
    ghost var body := b64;
    while |b64| % 4 != 0
      invariant |body| <= |b64| <= |body| + |Padding(|url|)| && |body| == |url|
      invariant b64 == body + Padding(|url|)[..|b64| - |body|]
      decreases |body| + |Padding(|url|)| - |b64|
    {
      assert |b64| < |body| + |Padding(|url|)|;
      b64 := b64 + "=";
    }
    assert |b64| == |body| + |Padding(|url|)|;
  }
}
