/**
 * The JSON text that `json.dumps` produces for a reference list such as
 * `[{"author_email": 3}, {"author_email": null}]`, with the default
 * separators `", "` and `": "`, and a decoder that reads it back.
 */
module RefJson {
  import opened Wrappers

  /** The column a serialised reference is keyed by. */
  datatype RefKey = AuthorEmail | CommitHash {
    function Name(): string {
      match this
      case AuthorEmail => "author_email"
      case CommitHash => "commit_hash"
    }
  }

  predicate IsDigit(c: char) {
    '0' <= c <= '9'
  }

  predicate AllDigits(s: string) {
    forall i :: 0 <= i < |s| ==> IsDigit(s[i])
  }

  function DigitChar(d: nat): (c: char)
    requires d < 10
    ensures IsDigit(c)
  {
    (('0' as int) + d) as char
  }

  function DigitValue(c: char): (d: nat)
    requires IsDigit(c)
    ensures d < 10
  {
    (c as int) - ('0' as int)
  }

  /** `str(n)` for a non-negative integer: decimal digits, no leading zero. */
  function NatToString(n: nat): (s: string)
    ensures |s| > 0 && AllDigits(s)
  {
    if n < 10 then [DigitChar(n)] else NatToString(n / 10) + [DigitChar(n % 10)]
  }

  /** The number a run of decimal digits denotes. */
  function DigitsValue(s: string): nat
    requires AllDigits(s)
  {
    if |s| == 0 then 0 else DigitsValue(s[..|s| - 1]) * 10 + DigitValue(s[|s| - 1])
  }

  lemma {:induction false} DigitsValueOfNatToString(n: nat)
    ensures DigitsValue(NatToString(n)) == n
  {
    if n >= 10 {
      var s := NatToString(n);
      assert s[..|s| - 1] == NatToString(n / 10);
      DigitsValueOfNatToString(n / 10);
    }
  }

  predicate StartsWith(s: string, prefix: string) {
    |prefix| <= |s| && s[..|prefix|] == prefix
  }

  /** The text before the value in `{"key": value}`. */
  function RefPrefix(key: RefKey): string {
    "{\"" + key.Name() + "\": "
  }

  /** `json.dumps({key: r})`, with `None` written as `null`. */
  function EncodeRef(key: RefKey, r: Option<nat>): (s: string)
    ensures |s| > 0
  {
    RefPrefix(key) + (match r case None => "null" case Some(n) => NatToString(n)) + "}"
  }

  function EncodeItems(key: RefKey, refs: seq<Option<nat>>): (s: string)
    ensures |refs| > 0 ==> |s| > 0
  {
    if |refs| == 0 then ""
    else if |refs| == 1 then EncodeRef(key, refs[0])
    else EncodeRef(key, refs[0]) + ", " + EncodeItems(key, refs[1..])
  }

  /** `json.dumps(refs)` for a list of single-key reference dictionaries. */
  function EncodeRefs(key: RefKey, refs: seq<Option<nat>>): (s: string)
    ensures |s| >= 2 && s[0] == '[' && s[|s| - 1] == ']'
  {
    "[" + EncodeItems(key, refs) + "]"
  }

  /** The length of the run of digits `s` starts with. */
  function LeadingDigits(s: string): (n: nat)
    ensures n <= |s|
    ensures AllDigits(s[..n])
    ensures n < |s| ==> !IsDigit(s[n])
  {
    if |s| == 0 || !IsDigit(s[0]) then 0
    else
      var n := 1 + LeadingDigits(s[1..]);
      assert s[..n] == [s[0]] + s[1..][..n - 1];
      n
  }

  /** Reads one `{"key": value}` from the front of `s`: the reference and the characters used. */
  function DecodeRef(key: RefKey, s: string): (r: Option<(Option<nat>, nat)>)
    ensures r.Some? ==> 0 < r.value.1 <= |s|
  {
    DecodePrefixed(RefPrefix(key), s)
  }

  /** Reads `p` and then a value with its closing brace. */
  function DecodePrefixed(p: string, s: string): (r: Option<(Option<nat>, nat)>)
    ensures r.Some? ==> 0 < r.value.1 <= |s|
  {
    if !StartsWith(s, p) then None
    else
      match DecodeValue(s[|p|..])
      case None => None
      case Some((v, n)) => Some((v, |p| + n))
  }

  /** Reads `null}` or `<digits>}` from the front of `t`: the value and the characters used. */
  function DecodeValue(t: string): (r: Option<(Option<nat>, nat)>)
    ensures r.Some? ==> 0 < r.value.1 <= |t|
  {
    if StartsWith(t, "null}") then Some((None, 5))
    else
      var d := LeadingDigits(t);
      if d == 0 || d >= |t| || t[d] != '}' then None
      else Some((Some(DigitsValue(t[..d])), d + 1))
  }

  /** Reads `item, item, ..., item]` to the end of `s`. */
  function DecodeItems(key: RefKey, s: string): Option<seq<Option<nat>>>
    decreases |s|
  {
    match DecodeRef(key, s)
    case None => None
    case Some((r, n)) =>
      var rest := s[n..];
      if rest == "]" then Some([r])
      else if StartsWith(rest, ", ") then
        match DecodeItems(key, rest[2..])
        case None => None
        case Some(rs) => Some([r] + rs)
      else None
  }

  /** `json.loads` of a reference list, or `None` when `s` is not one. */
  function DecodeRefs(key: RefKey, s: string): Option<seq<Option<nat>>> {
    if s == "[]" then Some([])
    else if |s| > 0 && s[0] == '[' then DecodeItems(key, s[1..])
    else None
  }

  lemma ReadNumber(n: nat, rest: string)
    requires rest == [] || !IsDigit(rest[0])
    ensures var t := NatToString(n) + rest;
      LeadingDigits(t) == |NatToString(n)| && t[..|NatToString(n)|] == NatToString(n)
  {
    var ds := NatToString(n);
    var t := ds + rest;
    assert t[..|ds|] == ds;
  }

  lemma DecodeEncodedRef(key: RefKey, r: Option<nat>, rest: string)
    requires rest == [] || rest[0] == ',' || rest[0] == ']'
    ensures DecodeRef(key, EncodeRef(key, r) + rest) == Some((r, |EncodeRef(key, r)|))
  {
    var v := match r case None => "null" case Some(n) => NatToString(n);
    EncodeRefParts(key, r, rest);
    DecodeEncodedValue(r, rest);
    DecodePrefixedAfter(RefPrefix(key), v + ("}" + rest));
  }

  lemma EncodeRefParts(key: RefKey, r: Option<nat>, rest: string)
    ensures var v := match r case None => "null" case Some(n) => NatToString(n);
      EncodeRef(key, r) + rest == RefPrefix(key) + (v + ("}" + rest))
      && |EncodeRef(key, r)| == |RefPrefix(key)| + |v| + 1
  {
  }

  lemma DecodePrefixedAfter(p: string, t: string)
    ensures DecodePrefixed(p, p + t)
      == match DecodeValue(t) case None => None case Some((v, n)) => Some((v, |p| + n))
  {
    assert (p + t)[..|p|] == p;
    assert (p + t)[|p|..] == t;
  }

  lemma DecodeEncodedValue(r: Option<nat>, rest: string)
    requires rest == [] || rest[0] == ',' || rest[0] == ']'
    ensures var v := match r case None => "null" case Some(n) => NatToString(n);
      DecodeValue(v + ("}" + rest)) == Some((r, |v| + 1))
  {
    if r.Some? {
      ReadValue(r.value, rest);
    } else {
      var t := "null" + ("}" + rest);
      assert t[..5] == "null}";
    }
  }

  lemma ReadValue(n: nat, rest: string)
    requires rest == [] || rest[0] == ',' || rest[0] == ']'
    ensures var v := NatToString(n); var t := v + ("}" + rest);
      && !StartsWith(t, "null}")
      && LeadingDigits(t) == |v|
      && |v| < |t| && t[|v|] == '}'
      && DigitsValue(t[..|v|]) == n
  {
    var v := NatToString(n);
    var t := v + ("}" + rest);
    ReadNumber(n, "}" + rest);
    assert t[|v|] == '}';
    assert t[0] == v[0];
    assert IsDigit(t[0]);
    DigitsValueOfNatToString(n);
  }

  lemma DecodeLastItem(key: RefKey, s: string, r: Option<nat>, n: nat)
    requires DecodeRef(key, s) == Some((r, n))
    requires s[n..] == "]"
    ensures DecodeItems(key, s) == Some([r])
  {
  }

  lemma DecodeNextItem(key: RefKey, s: string, r: Option<nat>, n: nat, rs: seq<Option<nat>>)
    requires DecodeRef(key, s) == Some((r, n))
    requires StartsWith(s[n..], ", ") && s[n..] != "]"
    requires DecodeItems(key, s[n..][2..]) == Some(rs)
    ensures DecodeItems(key, s) == Some([r] + rs)
  {
  }

  lemma DecodeSingleItem(key: RefKey, r: Option<nat>)
    ensures DecodeItems(key, EncodeRef(key, r) + "]") == Some([r])
  {
    var head := EncodeRef(key, r);
    var s := head + "]";
    DecodeEncodedRef(key, r, "]");
    assert s[|head|..] == "]";
    DecodeLastItem(key, s, r, |head|);
  }

  lemma DecodeFrontItem(key: RefKey, r: Option<nat>, tail: string, rs: seq<Option<nat>>)
    requires DecodeItems(key, tail) == Some(rs)
    ensures DecodeItems(key, EncodeRef(key, r) + ", " + tail) == Some([r] + rs)
  {
    var head := EncodeRef(key, r);
    var rest := ", " + tail;
    var s := head + ", " + tail;
    assert s == head + rest;
    DecodeEncodedRef(key, r, rest);
    assert s[|head|..] == rest;
    assert rest[..2] == ", ";
    assert rest[2..] == tail;
    DecodeNextItem(key, s, r, |head|, rs);
  }

  lemma {:induction false} DecodeEncodedItems(key: RefKey, refs: seq<Option<nat>>)
    requires |refs| > 0
    ensures DecodeItems(key, EncodeItems(key, refs) + "]") == Some(refs)
  {
    if |refs| == 1 {
      DecodeOneItem(key, refs);
    } else {
      DecodeEncodedItems(key, refs[1..]);
      DecodeItemsStep(key, refs);
    }
  }

  lemma DecodeOneItem(key: RefKey, refs: seq<Option<nat>>)
    requires |refs| == 1
    ensures DecodeItems(key, EncodeItems(key, refs) + "]") == Some(refs)
  {
    assert EncodeItems(key, refs) == EncodeRef(key, refs[0]);
    DecodeSingleItem(key, refs[0]);
    assert refs == [refs[0]];
  }

  lemma DecodeItemsStep(key: RefKey, refs: seq<Option<nat>>)
    requires |refs| > 1
    requires DecodeItems(key, EncodeItems(key, refs[1..]) + "]") == Some(refs[1..])
    ensures DecodeItems(key, EncodeItems(key, refs) + "]") == Some(refs)
  {
    var tail := EncodeItems(key, refs[1..]) + "]";
    EncodeItemsFront(key, refs);
    DecodeFrontItem(key, refs[0], tail, refs[1..]);
    assert [refs[0]] + refs[1..] == refs;
  }

  lemma EncodeItemsFront(key: RefKey, refs: seq<Option<nat>>)
    requires |refs| > 1
    ensures EncodeItems(key, refs) + "]" == EncodeRef(key, refs[0]) + ", " + (EncodeItems(key, refs[1..]) + "]")
  {
  }

  /** Reading back what `json.dumps` wrote gives the same references. */
  lemma DecodeEncodeRefs(key: RefKey, refs: seq<Option<nat>>)
    ensures DecodeRefs(key, EncodeRefs(key, refs)) == Some(refs)
  {
    var items := EncodeItems(key, refs);
    var s := EncodeRefs(key, refs);
    assert s == "[" + (items + "]");
    if |refs| == 0 {
      assert items == "";
      assert s == "[]";
    } else {
      assert |s| > 2;
      assert s[1..] == items + "]";
      DecodeEncodedItems(key, refs);
    }
  }
}
