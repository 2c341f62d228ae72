/** middleware/validation.js: the error-list responder, the string and object
    sanitisers, and the concrete field rules the routes apply before the handlers run. */
module Validation {
  import opened Common
  import Http

  // ---------------------------------------------------------------- validate

  /** One entry of express-validator's error array: the field path and its message. */
  datatype ValidationError = ValidationError(path: string, msg: string)

  /** `validate`: with errors, a 400 answer listing one `{ field, message }` per error in
      order; without, `None` (the request goes on to the handler). */
  function Validate(errors: seq<ValidationError>): (r: Option<Http.Response>)
    ensures r.None? <==> errors == []
    ensures r.Some? ==> r.value.status == 400 && r.value.payload.ValidationFailed?
    ensures r.Some? ==> |r.value.payload.errors| == |errors|
    ensures r.Some? ==> forall i :: 0 <= i < |errors| ==>
              r.value.payload.errors[i] == Http.FieldError(errors[i].path, errors[i].msg)
  {
    if errors == [] then None
    else Some(Http.Response(400, Http.ValidationFailed(seq(|errors|, i requires 0 <= i < |errors| =>
                                                             Http.FieldError(errors[i].path, errors[i].msg)))))
  }

  // ---------------------------------------------------------------- sanitizeString

  /** The characters `String.prototype.trim` (and the regular-expression class `\s`)
      removes: WhiteSpace and LineTerminator of ECMAScript. */
  predicate IsJsSpace(c: char) {
    || '\U{9}' <= c <= '\U{D}'
    || c == ' ' || c == '\U{A0}' || c == '\U{1680}' || ('\U{2000}' <= c <= '\U{200A}')
    || c == '\U{2028}' || c == '\U{2029}' || c == '\U{202F}' || c == '\U{205F}' || c == '\U{3000}'
    || c == '\U{FEFF}'
  }

  /** Drops the leading white space: what is left is a suffix that does not start with
      white space, and everything dropped was white space. */
  function TrimStart(s: string): (r: string)
    ensures |r| <= |s| && r == s[|s| - |r|..]
    ensures r == [] || !IsJsSpace(r[0])
    ensures forall i :: 0 <= i < |s| - |r| ==> IsJsSpace(s[i])
    decreases |s|
  {
    if s != [] && IsJsSpace(s[0]) then TrimStart(s[1..]) else s
  }

  /** Drops the trailing white space, symmetrically. */
  function TrimEnd(s: string): (r: string)
    ensures |r| <= |s| && r == s[..|r|]
    ensures r == [] || !IsJsSpace(r[|r| - 1])
    ensures forall i :: |r| <= i < |s| ==> IsJsSpace(s[i])
    decreases |s|
  {
    if s != [] && IsJsSpace(s[|s| - 1]) then TrimEnd(s[..|s| - 1]) else s
  }

  /** `s.trim()`: the middle of `s`, with only white space cut off at either end, and
      neither end of the result white space. */
  function Trim(s: string): (r: string)
    ensures exists i, j :: 0 <= i <= j <= |s| && r == s[i..j]
                           && (forall k :: 0 <= k < i ==> IsJsSpace(s[k]))
                           && (forall k :: j <= k < |s| ==> IsJsSpace(s[k]))
    ensures r == [] || (!IsJsSpace(r[0]) && !IsJsSpace(r[|r| - 1]))
  {
    var a := TrimStart(s);
    var r := TrimEnd(a);
    var i := |s| - |a|;
    assert r == s[i..i + |r|];
    r
  }

  /** `.replace(/[<>]/g, "")`: every '<' and '>' deleted; all other characters kept, each
      exactly as often as before. A single character is deleted exactly when it is a
      bracket; that the kept characters stay in order is RemoveAnglesAppend. */
  function RemoveAngles(s: string): (r: string)
    ensures '<' !in r && '>' !in r
    ensures forall c :: c != '<' && c != '>' ==> multiset(r)[c] == multiset(s)[c]
    ensures |r| <= |s|
    ensures |s| == 1 ==> r == (if s[0] == '<' || s[0] == '>' then [] else s)
    decreases |s|
  {
    if s == [] then []
    else
      var rest := RemoveAngles(s[1..]);
      assert s == [s[0]] + s[1..];
      if s[0] == '<' || s[0] == '>' then rest else [s[0]] + rest
  }

  /** A string without angle brackets passes through unchanged. */
  lemma {:induction false} RemoveAnglesKeepsClean(s: string)
    requires '<' !in s && '>' !in s
    ensures RemoveAngles(s) == s
    decreases |s|
  {
    if s != [] {
      assert s[0] in s;
      assert forall c :: c in s[1..] ==> c in s;
      RemoveAnglesKeepsClean(s[1..]);
      assert s == [s[0]] + s[1..];
    }
  }

  /** The deletion works piece by piece: cleaning a concatenation cleans each part and
      keeps them in order. With the one-character case of RemoveAngles this fixes the
      result: the characters of `s` that are not brackets, in their original order. */
  lemma {:induction false} RemoveAnglesAppend(a: string, b: string)
    ensures RemoveAngles(a + b) == RemoveAngles(a) + RemoveAngles(b)
    decreases |a|
  {
    if a != [] {
      assert (a + b)[1..] == a[1..] + b;
      RemoveAnglesAppend(a[1..], b);
    } else {
      assert a + b == b;
    }
  }

  /** `sanitizeString` on a string: trim, then delete the angle brackets. */
  function SanitizeString(s: string): string {
    RemoveAngles(Trim(s))
  }

  /** The output holds no angle bracket, and keeps every other character of the trimmed
      input as often as it occurred there and in the same order: cut the trimmed input
      anywhere, and the output is the cleaned front followed by the cleaned back. A string
      that is already trimmed and free of brackets is a fixed point. */
  lemma SanitizeStringSpec(s: string)
    ensures '<' !in SanitizeString(s) && '>' !in SanitizeString(s)
    ensures forall c :: c != '<' && c != '>' ==> multiset(SanitizeString(s))[c] == multiset(Trim(s))[c]
    ensures forall i :: 0 <= i <= |Trim(s)| ==>
              SanitizeString(s) == RemoveAngles(Trim(s)[..i]) + RemoveAngles(Trim(s)[i..])
    ensures '<' !in s && '>' !in s && Trim(s) == s ==> SanitizeString(s) == s
  {
    var t := Trim(s);
    forall i | 0 <= i <= |t|
      ensures SanitizeString(s) == RemoveAngles(t[..i]) + RemoveAngles(t[i..])
    {
      RemoveAnglesAppend(t[..i], t[i..]);
      assert t[..i] + t[i..] == t;
    }
    if '<' !in s && '>' !in s && Trim(s) == s {
      RemoveAnglesKeepsClean(s);
    }
  }

  /** A string whose first and last characters are not white space is its own trim. */
  lemma TrimmedAlready(s: string)
    requires s != [] && !IsJsSpace(s[0]) && !IsJsSpace(s[|s| - 1])
    ensures Trim(s) == s
  {
  }

  /** The deletion runs after the trim, so the result need not be trimmed: "< a" gives " a". */
  lemma SanitizeStringNotTrimmed()
    ensures SanitizeString("< a") == " a"
  {
    TrimmedAlready("< a");
    assert RemoveAngles("a") == "a";
    assert RemoveAngles(" a") == " a";
  }

  /** For the same reason sanitising twice can differ from sanitising once: "a <" gives
      "a ", which gives "a". */
  lemma SanitizeStringNotIdempotent()
    ensures SanitizeString("a <") == "a "
    ensures SanitizeString("a ") == "a"
  {
    TrimmedAlready("a <");
    assert RemoveAngles("<") == "";
    assert RemoveAngles(" <") == " ";
    assert RemoveAngles("a <") == "a ";
    assert TrimEnd("a ") == TrimEnd("a");
    TrimmedAlready("a");
    assert RemoveAngles("a") == "a";
  }

  // ---------------------------------------------------------------- sanitizeObject

  /** The JavaScript values a request body holds. */
  datatype JsValue =
    | JsUndefined
    | JsNull
    | JsBool(b: bool)
    | JsNumber(n: real)
    | JsString(s: string)
    | JsArray(items: seq<JsValue>)
    | JsObject(entries: seq<Entry>)

  /** An own property, in insertion order. */
  datatype Entry = Entry(key: string, value: JsValue)

  /** `sanitizeString` on any value: non-strings come back unchanged. */
  function SanitizeValue(v: JsValue): (r: JsValue)
    ensures !v.JsString? ==> r == v
    ensures v.JsString? ==> r == JsString(SanitizeString(v.s)) && '<' !in r.s && '>' !in r.s
  {
    if v.JsString? then
      SanitizeStringSpec(v.s);
      JsString(SanitizeString(v.s))
    else v
  }

  function Keys(entries: seq<Entry>): seq<string> {
    seq(|entries|, i requires 0 <= i < |entries| => entries[i].key)
  }

  predicate DistinctKeys(entries: seq<Entry>) {
    forall i, j :: 0 <= i < j < |entries| ==> entries[i].key != entries[j].key
  }

  /** `r` is `entries` with the value under `key` replaced, every entry in its place. */
  predicate ReplacedInPlace(entries: seq<Entry>, r: seq<Entry>, key: string, value: JsValue) {
    && |r| == |entries|
    && forall i :: 0 <= i < |entries| ==> r[i] == (if entries[i].key == key then Entry(key, value) else entries[i])
  }

  /** `target[key] = value`: an existing property keeps its place and takes the new
      value, a new one goes to the end. */
  function Put(entries: seq<Entry>, key: string, value: JsValue): (r: seq<Entry>)
    ensures key in Keys(entries) ==> |r| == |entries|
    ensures DistinctKeys(entries) && key in Keys(entries) ==> ReplacedInPlace(entries, r, key, value)
    ensures key !in Keys(entries) ==> r == entries + [Entry(key, value)]
    ensures forall k :: k in Keys(r) <==> k in Keys(entries) || k == key
    decreases |entries|
  {
    if entries == [] then
      assert Keys([Entry(key, value)]) == [key];
      [Entry(key, value)]
    else if entries[0].key == key then
      assert Keys(entries) == [key] + Keys(entries[1..]);
      assert Keys([Entry(key, value)] + entries[1..]) == [key] + Keys(entries[1..]);
      [Entry(key, value)] + entries[1..]
    else
      var rest := Put(entries[1..], key, value);
      assert Keys(entries) == [entries[0].key] + Keys(entries[1..]);
      assert Keys([entries[0]] + rest) == [entries[0].key] + Keys(rest);
      [entries[0]] + rest
  }

  /** The entries with every value passed through SanitizeValue. */
  function SanitizedEntries(entries: seq<Entry>): (r: seq<Entry>)
    ensures |r| == |entries|
    ensures forall i :: 0 <= i < |r| ==> r[i].key == entries[i].key && r[i].value == SanitizeValue(entries[i].value)
  {
    seq(|entries|, i requires 0 <= i < |entries| => Entry(entries[i].key, SanitizeValue(entries[i].value)))
  }

  /** The decimal text of an array index, as `Object.entries` names it. */
  function Decimal(n: nat): string
    decreases n
  {
    if n < 10 then [('0' as int + n) as char]
    else Decimal(n / 10) + [('0' as int + n % 10) as char]
  }

  /** Reading the index text back gives the index, so distinct indices have distinct names. */
  lemma {:induction false} DecimalRoundTrip(n: nat)
    ensures AllDigits(Decimal(n))
    ensures DigitsValue(Decimal(n)) == n
    decreases n
  {
    if n >= 10 {
      DecimalRoundTrip(n / 10);
      var d := Decimal(n);
      assert d[..|d| - 1] == Decimal(n / 10);
    }
  }

  /** `Object.entries` of an array: one entry per element, named by its index. */
  function IndexEntries(items: seq<JsValue>): (r: seq<Entry>)
    ensures |r| == |items|
    ensures DistinctKeys(r)
    ensures forall i :: 0 <= i < |r| ==> r[i] == Entry(Decimal(i), items[i])
  {
    var r := seq(|items|, i requires 0 <= i < |items| => Entry(Decimal(i), items[i]));
    forall i, j | 0 <= i < j < |r| ensures r[i].key != r[j].key {
      DecimalRoundTrip(i);
      DecimalRoundTrip(j);
    }
    r
  }

  /** Object.entries of a value that sanitizeObject walks. */
  function EntriesOf(v: JsValue): seq<Entry>
    requires v.JsArray? || v.JsObject?
  {
    if v.JsArray? then IndexEntries(v.items) else v.entries
  }

  lemma KeysSnoc(entries: seq<Entry>, e: Entry)
    ensures Keys(entries + [e]) == Keys(entries) + [e.key]
  {
  }

  lemma SanitizedSnoc(entries: seq<Entry>, e: Entry)
    ensures SanitizedEntries(entries + [e]) == SanitizedEntries(entries) + [Entry(e.key, SanitizeValue(e.value))]
  {
  }

  lemma FreshKey(entries: seq<Entry>, n: nat)
    requires DistinctKeys(entries) && n < |entries|
    ensures entries[n].key !in Keys(entries[..n])
  {
  }

  /** One turn of sanitizeObject's loop: assigning the n-th entry's sanitised value adds
      its key, and with distinct keys it appends the sanitised entry. */
  lemma PutStep(sanitized: seq<Entry>, entries: seq<Entry>, n: nat, value: JsValue)
    requires n < |entries|
    requires value == SanitizeValue(entries[n].value)
    requires forall k :: k in Keys(sanitized) <==> k in Keys(entries[..n])
    ensures forall k :: k in Keys(Put(sanitized, entries[n].key, value)) <==> k in Keys(entries[..n + 1])
    ensures DistinctKeys(entries) && sanitized == SanitizedEntries(entries[..n]) ==>
      Put(sanitized, entries[n].key, value) == SanitizedEntries(entries[..n + 1])
  {
    var e := entries[n];
    assert entries[..n + 1] == entries[..n] + [e];
    KeysSnoc(entries[..n], e);
    if DistinctKeys(entries) && sanitized == SanitizedEntries(entries[..n]) {
      SanitizedSnoc(entries[..n], e);
      FreshKey(entries, n);
    }
  }

  /** `sanitizeObject`: a falsy or non-object value comes back unchanged; otherwise a
      fresh object receives, key by key, each own property's value, sanitised when it is
      a string. The result has exactly the input's keys (an array's indices), each value
      sanitised in place of the original. */
  method SanitizeObject(obj: JsValue) returns (r: JsValue)
    ensures !(obj.JsArray? || obj.JsObject?) ==> r == obj
    ensures obj.JsArray? || obj.JsObject? ==> r.JsObject?
    ensures obj.JsArray? || obj.JsObject? ==>
              forall k :: k in Keys(r.entries) <==> k in Keys(EntriesOf(obj))
    ensures obj.JsArray? || (obj.JsObject? && DistinctKeys(obj.entries)) ==>
              r.entries == SanitizedEntries(EntriesOf(obj))
  {
    if !(obj.JsArray? || obj.JsObject?) {
      return obj;
    }
    var entries := EntriesOf(obj);
    ghost var distinct := DistinctKeys(entries);
    var sanitized: seq<Entry> := [];
    for n := 0 to |entries|
      invariant forall k :: k in Keys(sanitized) <==> k in Keys(entries[..n])
      invariant distinct ==> sanitized == SanitizedEntries(entries[..n])
    {
      var e := entries[n];
      var value := if e.value.JsString? then JsString(SanitizeString(e.value.s)) else e.value;
      PutStep(sanitized, entries, n, value);
      sanitized := Put(sanitized, e.key, value);
    }
    assert entries[..|entries|] == entries;
    r := JsObject(sanitized);
  }

  // ---------------------------------------------------------------- field rules

  /** phone: `.trim().matches(/^[0-9]{9,15}$/)` -- the trimmed value is 9 to 15 ASCII digits. */
  predicate IsPhone(s: string) {
    var t := Trim(s);
    9 <= |t| <= 15 && AllDigits(t)
  }

  /** Sanitising an accepted phone number only trims it, and what remains is still
      accepted: the rule and the sanitiser agree on phone numbers. */
  lemma PhoneSurvivesSanitize(s: string)
    requires IsPhone(s)
    ensures SanitizeString(s) == Trim(s)
    ensures IsPhone(SanitizeString(s))
  {
    var t := Trim(s);
    assert AllDigits(t);
    assert '<' !in t && '>' !in t by {
      forall i | 0 <= i < |t|
        ensures t[i] != '<' && t[i] != '>'
      {
        assert IsDigit(t[i]);
      }
    }
    RemoveAnglesKeepsClean(t);
    assert !IsJsSpace(t[0]) && !IsJsSpace(t[|t| - 1]) by {
      assert IsDigit(t[0]) && IsDigit(t[|t| - 1]);
    }
    TrimmedAlready(t);
  }

  /** birth_time: `/^([0-1][0-9]|2[0-3]):[0-5][0-9]$/`, character by character. */
  predicate IsBirthTime(s: string) {
    && |s| == 5
    && ((('0' <= s[0] <= '1') && IsDigit(s[1])) || (s[0] == '2' && '0' <= s[1] <= '3'))
    && s[2] == ':'
    && '0' <= s[3] <= '5' && IsDigit(s[4])
  }

  /** Two-digit zero-padded text of a number below 100. */
  function TwoDigits(n: nat): string
    requires n < 100
  {
    [('0' as int + n / 10) as char, ('0' as int + n % 10) as char]
  }

  /** A birth time is accepted exactly when it is "HH:MM" for an hour 0..23 and a
      minute 0..59. */
  lemma BirthTimeExact(s: string)
    ensures IsBirthTime(s) <==> exists h: nat, m: nat :: h < 24 && m < 60 && s == TwoDigits(h) + ":" + TwoDigits(m)
  {
    if IsBirthTime(s) {
      var h := (s[0] as int - '0' as int) * 10 + (s[1] as int - '0' as int);
      var m := (s[3] as int - '0' as int) * 10 + (s[4] as int - '0' as int);
      assert TwoDigits(h) == s[..2];
      assert TwoDigits(m) == s[3..];
      assert s == TwoDigits(h) + ":" + TwoDigits(m);
    }
  }

  /** gender: `isIn(["male", "female", "other"])`. */
  predicate IsGender(s: string) {
    s == "male" || s == "female" || s == "other"
  }

  /** status of a menu or a promotion group: `isIn(["AVAILABLE", "UNAVAILABLE"])`. */
  predicate IsStatus(s: string) {
    s == "AVAILABLE" || s == "UNAVAILABLE"
  }

  /** Every value the gender and status rules accept is already trimmed and free of angle
      brackets, so the sanitiser hands it to the rule unchanged: sanitising never turns an
      accepted choice into a rejected one. */
  lemma ChoicesSurviveSanitize(s: string)
    requires IsGender(s) || IsStatus(s)
    ensures SanitizeString(s) == s
    ensures IsGender(SanitizeString(s)) == IsGender(s) && IsStatus(SanitizeString(s)) == IsStatus(s)
  {
    assert '<' !in s && '>' !in s;
    TrimmedAlready(s);
    RemoveAnglesKeepsClean(s);
  }

  /** The value of `[-+]?[0-9]+`. */
  function SignedValue(s: string): int
    requires |s| >= 1 && (s[0] == '-' || s[0] == '+' ==> |s| >= 2)
    requires AllDigits(if s[0] == '-' || s[0] == '+' then s[1..] else s)
  {
    if s[0] == '-' then -(DigitsValue(s[1..]) as int)
    else if s[0] == '+' then DigitsValue(s[1..])
    else DigitsValue(s)
  }

  predicate IsIntText(s: string) {
    |s| >= 1 && (s[0] == '-' || s[0] == '+' ==> |s| >= 2)
    && AllDigits(if s[0] == '-' || s[0] == '+' then s[1..] else s)
  }

  /** page and the ids: `isInt({ min })` -- an optionally signed run of digits whose value
      is at least `min`. */
  predicate IsIntAtLeast(s: string, min: int) {
    IsIntText(s) && SignedValue(s) >= min
  }
}
