/** Vocabulary shared by the book list, the user list and the library:
    the scalar values an extra attribute can hold, their string forms,
    ASCII case folding, substring matching, and an order-keeping filter. */
module Common {

  datatype Option<T> = None | Some(value: T)

  /** Why a flat attribute map does not decode into a record. `Clash` is a
      leftover key that the record constructor already receives under its own
      parameter name, which Python rejects with a TypeError. */
  datatype DecodeError = MissingField(field: string) | WrongType(field: string) | Clash(field: string)

  datatype Result<T> = Ok(value: T) | Err(error: DecodeError) {
    predicate IsFailure() { Err? }

    function PropagateFailure<U>(): Result<U>
      requires Err?
    {
      Err(error)
    }

    function Extract(): T
      requires Ok?
    {
      value
    }
  }

  /** What an operation reports, in place of the message the program prints. */
  datatype Status = Done | NotFound | DuplicateKey | UnknownBook | UnknownUser | NotAvailable

  /** A JSON scalar as it can appear among a record's extra attributes. */
  datatype Value = Text(s: string) | Int(i: int) | Bool(b: bool) | Null

  function DigitChar(d: nat): char
    requires d < 10
  {
    "0123456789"[d]
  }

  predicate IsDigits(s: string)
  {
    forall i :: 0 <= i < |s| ==> '0' <= s[i] <= '9'
  }

  /** The number a string of decimal digits spells, most significant first. */
  function DigitsValue(s: string): nat
    requires IsDigits(s)
    decreases |s|
  {
    if s == [] then 0
    else DigitsValue(s[..|s| - 1]) * 10 + (s[|s| - 1] as int - '0' as int)
  }

  /** Digits without a redundant leading zero: "0" or a string not starting with '0'. */
  predicate IsCanonicalDigits(s: string)
  {
    && |s| > 0
    && IsDigits(s)
    && (|s| == 1 || s[0] != '0')
  }

  /** Decimal digits of a natural number, most significant first: the
      canonical digit string that spells `n`. */
  function NatToStr(n: nat): (r: string)
    ensures IsCanonicalDigits(r)
    ensures DigitsValue(r) == n
    decreases n
  {
    if n < 10 then [DigitChar(n)]
    else
      var init := NatToStr(n / 10);
      var r := init + [DigitChar(n % 10)];
      assert r[..|r| - 1] == init;
      r
  }

  /** The form Python's `str` gives an int: canonical digits, with a
      leading '-' for a negative number. */
  predicate IsIntForm(s: string)
  {
    || IsCanonicalDigits(s)
    || (|s| > 1 && s[0] == '-' && IsCanonicalDigits(s[1..]) && s[1] != '0')
  }

  /** The integer a string of that form spells. */
  function IntFormValue(s: string): int
    requires IsIntForm(s)
  {
    if s[0] == '-' then 0 - DigitsValue(s[1..]) as int else DigitsValue(s)
  }

  /** The string Python's `str` gives for a scalar value: text as it is,
      an integer in decimal, "True"/"False" and "None". */
  function ToStr(v: Value): (r: string)
    ensures v.Text? ==> r == v.s
    ensures v.Int? ==> IsIntForm(r) && IntFormValue(r) == v.i
    ensures v.Bool? ==> r == if v.b then "True" else "False"
    ensures v.Null? ==> r == "None"
  {
    match v
    case Text(s) => s
    case Int(i) =>
      if i < 0 then
        var digits := NatToStr(-i);
        assert ("-" + digits)[1..] == digits;
        "-" + digits
      else NatToStr(i)
    case Bool(b) => if b then "True" else "False"
    case Null => "None"
  }

  function LowerChar(c: char): char
  {
    if 'A' <= c <= 'Z' then (c as int + 32) as char else c
  }

  /** ASCII lower-casing, character by character. */
  function Lower(s: string): (r: string)
    ensures |r| == |s|
    ensures forall i :: 0 <= i < |s| ==> r[i] == LowerChar(s[i])
  {
    seq(|s|, i requires 0 <= i < |s| => LowerChar(s[i]))
  }

  predicate OccursAt(needle: string, hay: string, i: int)
  {
    0 <= i && i + |needle| <= |hay| && hay[i..i + |needle|] == needle
  }

  /** Python's `needle in hay` on strings: `needle` is a contiguous substring of `hay`. */
  predicate Contains(hay: string, needle: string)
  {
    exists i | 0 <= i <= |hay| - |needle| :: OccursAt(needle, hay, i)
  }

  /** The case-insensitive substring test the searches use: the lower-cased
      keyword occurs in the lower-cased field. */
  predicate MatchesIgnoringCase(field: string, keyword: string)
  {
    Contains(Lower(field), Lower(keyword))
  }

  lemma EmptyKeywordMatches(field: string)
    ensures MatchesIgnoringCase(field, "")
  {
    assert OccursAt(Lower(""), Lower(field), 0);
  }

  /** A record as the JSON documents hold it: a flat map from attribute name to value. */
  type Doc = map<string, Value>

  /** A required text field of a decoded map. */
  function TextField(d: Doc, k: string): Result<string>
  {
    if k !in d then Err(MissingField(k))
    else match d[k]
      case Text(s) => Ok(s)
      case _ => Err(WrongType(k))
  }

  /** An optional integer field, `default` when absent. */
  function IntFieldOr(d: Doc, k: string, default: int): Result<int>
  {
    if k !in d then Ok(default)
    else match d[k]
      case Int(n) => Ok(n)
      case _ => Err(WrongType(k))
  }

  /** An optional boolean field, `default` when absent. */
  function BoolFieldOr(d: Doc, k: string, default: bool): Result<bool>
  {
    if k !in d then Ok(default)
    else match d[k]
      case Bool(a) => Ok(a)
      case _ => Err(WrongType(k))
  }

  /** A whole list as it is saved: one encoded map per record, in list order. */
  function EncodeAll<T>(items: seq<T>, encode: T -> Doc): (docs: seq<Doc>)
    ensures |docs| == |items|
    ensures forall i :: 0 <= i < |items| ==> docs[i] == encode(items[i])
  {
    seq(|items|, i requires 0 <= i < |items| => encode(items[i]))
  }

  /** A whole list as it is loaded: each map decoded in order; the first
      failure stops the load. */
  function DecodeAll<T>(docs: seq<Doc>, decode: Doc -> Result<T>): (r: Result<seq<T>>)
    ensures r.Ok? ==> |r.value| == |docs|
    ensures r.Ok? ==> forall i :: 0 <= i < |docs| ==> decode(docs[i]) == Ok(r.value[i])
    ensures r.Err? ==> exists i :: 0 <= i < |docs| && decode(docs[i]).Err?
  {
    if docs == [] then Ok([])
    else
      var first :- decode(docs[0]);
      var rest :- DecodeAll(docs[1..], decode);
      Ok([first] + rest)
  }

  /** Saving and loading again gives the list back when every record survives
      its own encode/decode round trip. */
  lemma {:induction false} SaveLoadRoundTrip<T>(items: seq<T>, encode: T -> Doc, decode: Doc -> Result<T>)
    requires forall i :: 0 <= i < |items| ==> decode(encode(items[i])) == Ok(items[i])
    ensures DecodeAll(EncodeAll(items, encode), decode) == Ok(items)
    decreases |items|
  {
    if items != [] {
      SaveLoadRoundTrip(items[1..], encode, decode);
      assert EncodeAll(items, encode)[1..] == EncodeAll(items[1..], encode);
      assert [items[0]] + items[1..] == items;
    }
  }

  /** `r` is `s` with some elements dropped and the rest kept in their order. */
  ghost predicate IsSubseq<T>(r: seq<T>, s: seq<T>)
    decreases |s|
  {
    || r == []
    || (&& s != []
        && (|| (r[|r| - 1] == s[|s| - 1] && IsSubseq(r[..|r| - 1], s[..|s| - 1]))
            || IsSubseq(r, s[..|s| - 1])))
  }

  /** The elements of `s` that satisfy `p`, in the order of `s`: a list
      comprehension with an `if`, or a loop that appends what matches. */
  function Filter<T(!new)>(s: seq<T>, p: T -> bool): (r: seq<T>)
    ensures |r| <= |s|
    ensures forall x :: multiset(r)[x] == if p(x) then multiset(s)[x] else 0
    ensures forall x :: x in r <==> x in s && p(x)
    ensures IsSubseq(r, s)
    decreases |s|
  {
    if s == [] then []
    else
      var init, last := s[..|s| - 1], s[|s| - 1];
      assert s == init + [last];
      var rest := Filter(init, p);
      if p(last) then
        assert (rest + [last])[..|rest|] == rest;
        rest + [last]
      else
        rest
  }

  /** The loop both searches run: walk the list once, appending each element
      that passes the test. */
  method SelectWhere<T(!new)>(s: seq<T>, p: T -> bool) returns (r: seq<T>)
    ensures r == Filter(s, p)
  {
    r := [];
    var i := 0;
    while i < |s|
      invariant 0 <= i <= |s|
      invariant r == Filter(s[..i], p)
    {
      assert s[..i + 1][..i] == s[..i];
      if p(s[i]) {
        r := r + [s[i]];
      }
      i := i + 1;
    }
    assert s[..i] == s;
  }

  lemma {:induction false} FilterKeepsAll<T(!new)>(s: seq<T>, p: T -> bool)
    requires forall i :: 0 <= i < |s| ==> p(s[i])
    ensures Filter(s, p) == s
    decreases |s|
  {
    if s != [] {
      FilterKeepsAll(s[..|s| - 1], p);
      assert s == s[..|s| - 1] + [s[|s| - 1]];
    }
  }
}
