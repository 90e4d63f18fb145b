/** One line of a dump file, as the loop body of `get_submissions` in
    `src/data_loader.py` treats it: parse it as JSON, check `created_utc`, `id`
    and `subreddit`, search `title` then `selftext` for the first query term that
    occurs as a whole word regardless of case, and build the row to insert.
    Every exception the body can raise ends the line the same way as the
    `continue` for a missing `id`: the line is skipped. */
module Records {
  import opened Options
  import opened Text

  /** A value `json.loads` can produce (floating-point numbers aside). */
  datatype Json =
    | JNull
    | JBool(b: bool)
    | JInt(i: int)
    | JStr(s: string)
    | JArray(items: seq<Json>)
    | JObject(fields: map<string, Json>)

  /** Python truthiness, as `not obj.get("id")` tests it: every value is true
      except `None`, `False`, `0`, the empty string, list and object. */
  predicate Truthy(v: Json)
    ensures !Truthy(v) <==> v in {JNull, JBool(false), JInt(0), JStr(""), JArray([]), JObject(map[])}
  {
    match v
    case JNull => false
    case JBool(b) => b
    case JInt(i) => i != 0
    case JStr(s) => s != ""
    case JArray(items) => |items| > 0
    case JObject(fields) => |fields| > 0
  }

  /** `obj.get(key, default)`. */
  function Get(obj: map<string, Json>, key: string, default: Json): (v: Json)
    ensures key in obj ==> v == obj[key]
    ensures key !in obj ==> v == default
  {
    if key in obj then obj[key] else default
  }

  // ---------------------------------------------------------------- int()

  predicate IsDigit(c: char)
  {
    '0' <= c <= '9'
  }

  predicate AllDigits(s: string)
  {
    forall k :: 0 <= k < |s| ==> IsDigit(s[k])
  }

  /** The value of a run of decimal digits, most significant first. */
  function DigitsValue(s: string): nat
    requires AllDigits(s)
  {
    if |s| == 0 then 0 else DigitsValue(s[..|s| - 1]) * 10 + (s[|s| - 1] as int - '0' as int)
  }

  /** The whitespace `int()` skips around a number: what `str.isspace()`
      accepts except the four separators U+001C to U+001F. CPython turns
      non-ASCII whitespace into spaces and then skips only ASCII space, tab,
      line feed, vertical tab, form feed and carriage return, so those four
      ASCII separators are not skipped. */
  predicate IsIntSpace(c: char)
    ensures IsIntSpace(c) ==> IsSpace(c)
  {
    || c == ' '
    || ('\t' <= c <= '\r')
    || c == '\U{85}' || c == '\U{A0}' || c == '\U{1680}'
    || ('\U{2000}' <= c <= '\U{200A}')
    || c == '\U{2028}' || c == '\U{2029}' || c == '\U{202F}' || c == '\U{205F}'
    || c == '\U{3000}'
  }

  /** `t` is the slice of `s` starting at `i` with only `int()` whitespace
      before and after it. */
  predicate IntTrims(s: string, i: nat, t: string)
  {
    && i + |t| <= |s| && t == s[i..i + |t|]
    && (forall k :: 0 <= k < i ==> IsIntSpace(s[k]))
    && (forall k :: i + |t| <= k < |s| ==> IsIntSpace(s[k]))
  }

  /** No `int()` whitespace at either end. */
  predicate IntTrimmed(t: string)
  {
    |t| == 0 || (!IsIntSpace(t[0]) && !IsIntSpace(t[|t| - 1]))
  }

  function IntTrimLeft(s: string): string
  {
    if |s| > 0 && IsIntSpace(s[0]) then IntTrimLeft(s[1..]) else s
  }

  function IntTrimRight(s: string): string
  {
    if |s| > 0 && IsIntSpace(s[|s| - 1]) then IntTrimRight(s[..|s| - 1]) else s
  }

  /** Trimming the front drops a prefix of whitespace and stops at the first
      character that is not. */
  lemma {:induction false} IntTrimLeftFacts(s: string)
    ensures var r := IntTrimLeft(s);
            && |r| <= |s| && r == s[|s| - |r|..]
            && (forall k :: 0 <= k < |s| - |r| ==> IsIntSpace(s[k]))
            && (|r| == 0 || !IsIntSpace(r[0]))
  {
    if |s| > 0 && IsIntSpace(s[0]) {
      IntTrimLeftFacts(s[1..]);
    }
  }

  /** Trimming the back drops a suffix of whitespace and stops at the last
      character that is not. */
  lemma {:induction false} IntTrimRightFacts(s: string)
    ensures var r := IntTrimRight(s);
            && |r| <= |s| && r == s[..|r|]
            && (forall k :: |r| <= k < |s| ==> IsIntSpace(s[k]))
            && (|r| == 0 || !IsIntSpace(r[|r| - 1]))
  {
    if |s| > 0 && IsIntSpace(s[|s| - 1]) {
      IntTrimRightFacts(s[..|s| - 1]);
    }
  }

  /** The text `int()` parses once the whitespace around it is skipped
      (`IntTrimFacts` says what it is). */
  function IntTrim(s: string): string
  {
    IntTrimRight(IntTrimLeft(s))
  }

  /** The trimmed text has no `int()` whitespace at its ends, is a slice of
      the input with only such whitespace around it, and is the input itself
      when that has none at its ends. */
  lemma IntTrimFacts(s: string)
    ensures IntTrimmed(IntTrim(s))
    ensures exists i :: IntTrims(s, i, IntTrim(s))
    ensures IntTrimmed(s) ==> IntTrim(s) == s
  {
    var l := IntTrimLeft(s);
    var t := IntTrimRight(l);
    IntTrimLeftFacts(s);
    IntTrimRightFacts(l);
    assert |t| > 0 ==> t[0] == l[0];
    IntTrimSlice(s, l, t);
  }

  lemma IntTrimSlice(s: string, l: string, t: string)
    requires |l| <= |s| && l == s[|s| - |l|..] && forall k :: 0 <= k < |s| - |l| ==> IsIntSpace(s[k])
    requires |t| <= |l| && t == l[..|t|] && forall k :: |t| <= k < |l| ==> IsIntSpace(l[k])
    ensures IntTrims(s, |s| - |l|, t)
  {
    var i := |s| - |l|;
    forall k | i + |t| <= k < |s|
      ensures IsIntSpace(s[k])
    {
      assert s[k] == l[k - i];
    }
  }

  /** A sign on its own. */
  predicate IsSign(c: char)
  {
    c == '-' || c == '+'
  }

  /** `int(s)` for a string: whitespace around an optional sign and at least
      one ASCII digit; anything else raises `ValueError` (`None`). */
  function ParseInt(s: string): (r: Option<int>)
    ensures var t := IntTrim(s); r.Some? ==> |t| > 0 && (IsDigit(t[0]) || (|t| > 1 && IsSign(t[0])))
    ensures var t := IntTrim(s); r.Some? ==> forall k :: 0 < k < |t| ==> IsDigit(t[k])
    ensures var t := IntTrim(s); |t| > 0 && AllDigits(t) ==> r == Some(DigitsValue(t))
    ensures var t := IntTrim(s); |t| > 1 && IsSign(t[0]) && AllDigits(t[1..]) ==>
              r == Some(if t[0] == '-' then -(DigitsValue(t[1..]) as int) else DigitsValue(t[1..]))
  {
    ParseTrimmed(IntTrim(s))
  }

  /** The sign and digits once the whitespace is gone. */
  function ParseTrimmed(t: string): (r: Option<int>)
    ensures r.Some? ==> |t| > 0 && (IsDigit(t[0]) || (|t| > 1 && IsSign(t[0])))
    ensures r.Some? ==> forall k :: 0 < k < |t| ==> IsDigit(t[k])
    ensures |t| > 0 && AllDigits(t) ==> r == Some(DigitsValue(t))
    ensures |t| > 1 && IsSign(t[0]) && AllDigits(t[1..]) ==>
              r == Some(if t[0] == '-' then -(DigitsValue(t[1..]) as int) else DigitsValue(t[1..]))
  {
    var negative := |t| > 0 && t[0] == '-';
    var digits := if |t| > 0 && IsSign(t[0]) then t[1..] else t;
    if |digits| > 0 && AllDigits(digits) then
      var v: int := DigitsValue(digits);
      Some(if negative then -v else v)
    else None
  }

  /** A sign alone is not a number: `int("-")` raises. */
  lemma LoneSignFails(s: string)
    requires s == "-" || s == "+"
    ensures ParseInt(s) == None
  {
    assert IntTrimmed(s);
    IntTrimFacts(s);
  }

  /** An information separator (U+001C to U+001F) in front of the digits is
      not skipped: `int("\x1c5")` raises, although `"\x1c5".strip()` is
      `"5"`. */
  lemma SeparatorNotSkipped(c: char, digits: string)
    requires '\U{1C}' <= c <= '\U{1F}'
    requires |digits| > 0 && AllDigits(digits)
    ensures Strip([c] + digits) == digits
    ensures ParseInt([c] + digits) == None
  {
    SeparatorStripped(c, digits);
    SeparatorKept(c, digits);
  }

  lemma SeparatorStripped(c: char, digits: string)
    requires IsSpace(c) && IsStripped(digits)
    ensures Strip([c] + digits) == digits
  {
    StripLeadingSpace([c], digits);
  }

  lemma SeparatorKept(c: char, digits: string)
    requires !IsIntSpace(c) && !IsDigit(c) && !IsSign(c)
    requires |digits| > 0 && !IsIntSpace(digits[|digits| - 1])
    ensures ParseInt([c] + digits) == None
  {
    var s := [c] + digits;
    assert s[0] == c && s[|s| - 1] == digits[|digits| - 1];
    KeptSeparatorFails(s);
  }

  /** A string that starts with a character `int()` does not skip, and that
      is neither a digit nor a sign, is no number. */
  lemma KeptSeparatorFails(s: string)
    requires |s| > 0 && !IsIntSpace(s[0]) && !IsIntSpace(s[|s| - 1])
    requires !IsDigit(s[0]) && !IsSign(s[0])
    ensures ParseInt(s) == None
  {
    IntTrimFacts(s);
  }

  /** `int(v)` for a JSON value: integers as they are, booleans as 0 and 1,
      strings parsed; `None`, lists and objects raise `TypeError`. */
  function ToInt(v: Json): (r: Option<int>)
    ensures r.Some? <==> v.JInt? || v.JBool? || (v.JStr? && ParseInt(v.s).Some?)
    ensures v.JInt? ==> r == Some(v.i)
    ensures v.JBool? ==> r == Some(if v.b then 1 else 0)
    ensures v.JStr? ==> r == ParseInt(v.s)
  {
    match v
    case JInt(i) => Some(i)
    case JBool(b) => Some(if b then 1 else 0)
    case JStr(s) => ParseInt(s)
    case _ => None
  }

  /** `str(n)` for a natural number. */
  function ShowNat(n: nat): (s: string)
    ensures |s| > 0 && AllDigits(s) && DigitsValue(s) == n
    ensures !IsSpace(s[0]) && !IsSpace(s[|s| - 1])
  {
    var d := [('0' as int + n % 10) as char];
    if n < 10 then
      assert d[..0] == [];
      d
    else
      var init := ShowNat(n / 10);
      var s := init + d;
      assert s[..|s| - 1] == init;
      s
  }

  /** `str(n)` for any integer: the sign, then the digits of `|n|`. */
  function ShowInt(n: int): (s: string)
  {
    (if n < 0 then "-" else "") + ShowNat(if n < 0 then -n else n)
  }

  /** `int` undoes `str`: `int(str(n)) == n` for every integer. */
  lemma ParseShow(n: int)
    ensures ParseInt(ShowInt(n)) == Some(n)
  {
    var m: nat := if n < 0 then -n else n;
    if n < 0 {
      ParseShowNegative(m);
    } else {
      assert "" + ShowNat(m) == ShowNat(m);
      ParseShowNatural(m);
    }
  }

  lemma ParseShowNatural(m: nat)
    ensures ParseInt(ShowNat(m)) == Some(m)
  {
    var s := ShowNat(m);
    assert IntTrimmed(s);
    IntTrimFacts(s);
    assert '0' <= s[0] <= '9';
  }

  lemma ParseShowNegative(m: nat)
    ensures ParseInt("-" + ShowNat(m)) == Some(0 - m)
  {
    var d := ShowNat(m);
    var s := "-" + d;
    assert s[|s| - 1] == d[|d| - 1];
    assert IntTrimmed(s);
    IntTrimFacts(s);
    assert s[1..] == d;
  }

  // ---------------------------------------------------------- word search

  /** The characters `\w` matches in a `str` pattern, approximated: ASCII
      letters, digits and `_`, the Latin-1 letters and digit-like signs, and
      every character from U+0100 on that is neither whitespace nor general
      punctuation. */
  predicate IsWordChar(c: char)
  {
    || ('0' <= c <= '9') || ('a' <= c <= 'z') || ('A' <= c <= 'Z') || c == '_'
    || c == '\U{AA}' || c == '\U{B2}' || c == '\U{B3}' || c == '\U{B5}' || c == '\U{B9}' || c == '\U{BA}'
    || ('\U{BC}' <= c <= '\U{BE}')
    || ('\U{C0}' <= c <= '\U{FF}' && c != '\U{D7}' && c != '\U{F7}')
    || ('\U{100}' <= c && !IsSpace(c) && !('\U{2000}' <= c <= '\U{206F}'))
  }

  /** Position `j` of `t` holds a word character; positions outside `t` do not. */
  predicate WordAt(t: string, j: int)
  {
    0 <= j < |t| && IsWordChar(t[j])
  }

  /** `\b` at position `k`: a word character on exactly one side. */
  predicate Boundary(t: string, k: int)
  {
    WordAt(t, k - 1) != WordAt(t, k)
  }

  /** `\b` + `re.escape(q)` + `\b` with `re.IGNORECASE` matches `t` at `i`. */
  predicate WholeWordAt(t: string, q: string, i: int)
  {
    && 0 <= i && i + |q| <= |t|
    && LowerStr(t[i..i + |q|]) == LowerStr(q)
    && Boundary(t, i) && Boundary(t, i + |q|)
  }

  /** `re.search(...)` succeeds: `q` occurs somewhere in `t` as a whole word. */
  predicate ContainsWord(t: string, q: string)
  {
    exists i :: 0 <= i <= |t| && WholeWordAt(t, q, i)
  }

  /** The scan `re.search` performs: the leftmost match at or after `i`. */
  function FindWord(t: string, q: string, i: nat): (r: Option<nat>)
    ensures r.Some? ==> i <= r.value && WholeWordAt(t, q, r.value)
    ensures r.Some? ==> forall j :: i <= j < r.value ==> !WholeWordAt(t, q, j)
    ensures r.None? ==> forall j :: i <= j ==> !WholeWordAt(t, q, j)
    decreases |t| - i
  {
    if i + |q| > |t| then None
    else if WholeWordAt(t, q, i) then Some(i)
    else FindWord(t, q, i + 1)
  }

  /** The scan finds a match exactly when there is one. */
  lemma SearchFindsWord(t: string, q: string)
    ensures FindWord(t, q, 0).Some? <==> ContainsWord(t, q)
  {
  }

  /** The inner `for q in self.query` loop on one field's text: the index of
      the first term that occurs as a whole word, from index `j` on. */
  function FirstTerm(t: string, query: seq<string>, j: nat): (r: Option<nat>)
    ensures r.Some? ==> j <= r.value < |query| && ContainsWord(t, query[r.value])
    ensures r.Some? ==> forall m :: j <= m < r.value ==> !ContainsWord(t, query[m])
    ensures r.None? ==> forall m :: j <= m < |query| ==> !ContainsWord(t, query[m])
    decreases |query| - j
  {
    if j >= |query| then None
    else
      SearchFindsWord(t, query[j]);
      if FindWord(t, query[j], 0).Some? then Some(j) else FirstTerm(t, query, j + 1)
  }

  /** The fields searched, in order. */
  const SearchFields: seq<string> := ["title", "selftext"]

  /** The text `re.search` is given for a field: `obj.get(field, "")` when that
      is a string, `None` when it is not (and `re.search` raises `TypeError`). */
  function FieldText(obj: map<string, Json>, f: nat): Option<string>
    requires f < |SearchFields|
  {
    match Get(obj, SearchFields[f], JStr(""))
    case JStr(s) => Some(s)
    case _ => None
  }

  /** Searching field `f` finds nothing and raises nothing. */
  predicate Misses(obj: map<string, Json>, query: seq<string>, f: nat)
    requires f < |SearchFields|
  {
    |query| == 0
    || (FieldText(obj, f).Some? && forall m :: 0 <= m < |query| ==> !ContainsWord(FieldText(obj, f).value, query[m]))
  }

  /** Outcome of the field-then-term search. */
  datatype Search =
    | Hit(field: nat, index: nat)
    | NoHit
    | SearchError

  /** Field `g` is not text, and every field searched before it, from `f`
      on, missed: `re.search` raises on field `g`. */
  predicate FailsAt(obj: map<string, Json>, query: seq<string>, f: nat, g: nat)
    requires g < |SearchFields|
  {
    FieldText(obj, g).None? && forall h :: f <= h < g ==> Misses(obj, query, h)
  }

  /** The two nested `for` loops from field `f` on: the first field, and in it
      the first term, that matches; or an error from a field that is not text. */
  function SearchFrom(obj: map<string, Json>, query: seq<string>, f: nat): (r: Search)
    requires f <= |SearchFields|
    ensures r.Hit? ==>
              && f <= r.field < |SearchFields| && r.index < |query|
              && FieldText(obj, r.field).Some?
              && ContainsWord(FieldText(obj, r.field).value, query[r.index])
              && (forall m :: 0 <= m < r.index ==> !ContainsWord(FieldText(obj, r.field).value, query[m]))
              && (forall g :: f <= g < r.field ==> Misses(obj, query, g))
    ensures r.NoHit? <==> forall g :: f <= g < |SearchFields| ==> Misses(obj, query, g)
    ensures r.SearchError? ==>
              |query| > 0 && exists g :: f <= g < |SearchFields| && FailsAt(obj, query, f, g)
    decreases |SearchFields| - f
  {
    if f == |SearchFields| then NoHit
    else if |query| == 0 then SearchFrom(obj, query, f + 1)
    else
      match FieldText(obj, f)
      case None =>
        assert !Misses(obj, query, f) && FailsAt(obj, query, f, f);
        SearchError
      case Some(t) =>
        match FirstTerm(t, query, 0)
        case Some(k) =>
          assert !Misses(obj, query, f);
          Hit(f, k)
        case None =>
          var rest := SearchFrom(obj, query, f + 1);
          FailsAfterMiss(obj, query, f, f + 1, rest);
          rest
  }

  /** An error further on, after field `f` missed, is an error after every
      field from `f` on missed. */
  lemma FailsAfterMiss(obj: map<string, Json>, query: seq<string>, f: nat, next: nat, rest: Search)
    requires f < |SearchFields| && next == f + 1 && Misses(obj, query, f)
    requires rest.SearchError? ==> exists g :: next <= g < |SearchFields| && FailsAt(obj, query, next, g)
    ensures rest.SearchError? ==> exists g :: f <= g < |SearchFields| && FailsAt(obj, query, f, g)
  {
    if rest.SearchError? {
      var g :| next <= g < |SearchFields| && FailsAt(obj, query, next, g);
      assert FailsAt(obj, query, f, g);
    }
  }

  // ------------------------------------------------------------ one line

  /** The row built for a matched submission. `created` is the `created_utc`
      timestamp the date is computed from; `imageName` is always `None`. */
  datatype Submission = Submission(
    id: Json, created: int, author: Json, title: Json, body: Json,
    score: int, numComments: int, subreddit: Json, subredditId: Json,
    imageUrl: Json, imageName: Option<string>, matchedQuery: string)

  /** How the loop body ends for one line. `Dropped` is a line whose search
      matched (and was counted) but whose row could not be built. */
  datatype LineResult =
    | Skipped
    | Unmatched
    | Dropped(term: string)
    | Accepted(sub: Submission)
  {
    predicate Counted() { Dropped? || Accepted? }
  }

  /** The checks made before the search: `created_utc` present and convertible
      by `int()`, `id` and `subreddit` truthy. */
  predicate Admissible(obj: map<string, Json>)
  {
    && "created_utc" in obj && ToInt(obj["created_utc"]).Some?
    && Truthy(Get(obj, "id", JNull)) && Truthy(Get(obj, "subreddit", JNull))
  }

  /** Everything but the matched term that `sub` takes from `obj`. */
  predicate Normalised(obj: map<string, Json>, sub: Submission)
  {
    && "id" in obj && sub.id == obj["id"]
    && "created_utc" in obj && Some(sub.created) == ToInt(obj["created_utc"])
    && sub.author == Get(obj, "author", JStr(""))
    && sub.title == Get(obj, "title", JStr(""))
    && sub.body == Get(obj, "selftext", JStr(""))
    && Some(sub.score) == ToInt(Get(obj, "score", JInt(0)))
    && Some(sub.numComments) == ToInt(Get(obj, "num_comments", JInt(0)))
    && "subreddit" in obj && sub.subreddit == obj["subreddit"]
    && "subreddit_id" in obj && sub.subredditId == obj["subreddit_id"]
    && sub.imageUrl == Get(obj, "url", JStr(""))
    && sub.imageName == None
  }

  /** What building the row needs beyond the checks made before the search:
      `int()` of `score` and `num_comments`, and a `subreddit_id`. */
  predicate Buildable(obj: map<string, Json>)
  {
    && ToInt(Get(obj, "score", JInt(0))).Some?
    && ToInt(Get(obj, "num_comments", JInt(0))).Some?
    && "subreddit_id" in obj
  }

  /** The row for a matched record, or `None` where `int()` or a missing
      `subreddit_id` raises. */
  function Normalise(obj: map<string, Json>, created: int, term: string): (r: Option<Submission>)
    requires "id" in obj && "subreddit" in obj
    requires "created_utc" in obj && Some(created) == ToInt(obj["created_utc"])
    ensures r.Some? ==> Normalised(obj, r.value) && r.value.matchedQuery == term
    ensures r.None? <==> !Buildable(obj)
  {
    var score := ToInt(Get(obj, "score", JInt(0)));
    var comments := ToInt(Get(obj, "num_comments", JInt(0)));
    if score.None? || comments.None? || "subreddit_id" !in obj then None
    else
      Some(Submission(
        obj["id"], created, Get(obj, "author", JStr("")), Get(obj, "title", JStr("")),
        Get(obj, "selftext", JStr("")), score.value, comments.value, obj["subreddit"],
        obj["subreddit_id"], Get(obj, "url", JStr("")), None, term))
  }

  /** JSON parsing, left abstract: `None` where `json.loads` raises. */
  type Parser = string -> Option<Json>

  /** The line parsed to an object that passes the checks made before the
      search. */
  predicate Checked(parse: Parser, line: string)
  {
    parse(line).Some? && parse(line).value.JObject? && Admissible(parse(line).value.fields)
  }

  /** The loop body of `get_submissions` for one line, with `parse` for
      `json.loads`. Which of the four ways it ends is decided exactly by the
      checks, the search and whether the row can be built. */
  function ProcessLine(parse: Parser, query: seq<string>, line: string): (r: LineResult)
    ensures r.Skipped? <==> !Checked(parse, line) || SearchFrom(parse(line).value.fields, query, 0).SearchError?
    ensures r.Unmatched? <==> Checked(parse, line) && SearchFrom(parse(line).value.fields, query, 0).NoHit?
    ensures r.Accepted? <==>
              Checked(parse, line) && SearchFrom(parse(line).value.fields, query, 0).Hit?
              && Buildable(parse(line).value.fields)
    ensures r.Dropped? <==>
              Checked(parse, line) && SearchFrom(parse(line).value.fields, query, 0).Hit?
              && !Buildable(parse(line).value.fields)
    ensures r.Counted() ==>
              && parse(line).Some? && parse(line).value.JObject?
              && Admissible(parse(line).value.fields)
              && var s := SearchFrom(parse(line).value.fields, query, 0);
                 s.Hit? && (r.Accepted? ==> r.sub.matchedQuery == query[s.index])
                 && (r.Dropped? ==> r.term == query[s.index])
    ensures r.Accepted? ==> Normalised(parse(line).value.fields, r.sub)
    ensures r.Unmatched? ==>
              && parse(line).Some? && parse(line).value.JObject?
              && Admissible(parse(line).value.fields)
              && SearchFrom(parse(line).value.fields, query, 0).NoHit?
  {
    var parsed := parse(line);
    if parsed.None? || !parsed.value.JObject? then Skipped
    else
      var obj := parsed.value.fields;
      if "created_utc" !in obj || ToInt(obj["created_utc"]).None? then Skipped
      else if !Truthy(Get(obj, "id", JNull)) || !Truthy(Get(obj, "subreddit", JNull)) then Skipped
      else
        var created := ToInt(obj["created_utc"]).value;
        match SearchFrom(obj, query, 0)
        case SearchError => Skipped
        case NoHit => Unmatched
        case Hit(_, k) =>
          match Normalise(obj, created, query[k])
          case None => Dropped(query[k])
          case Some(sub) => Accepted(sub)
  }

  /** `matched_query` is always one of the query terms, and it matches the
      record's title or body as a whole word. */
  lemma MatchedQueryIsATerm(parse: Parser, query: seq<string>, line: string)
    ensures var r := ProcessLine(parse, query, line);
            r.Accepted? ==>
              && r.sub.matchedQuery in query
              && ((r.sub.title.JStr? && ContainsWord(r.sub.title.s, r.sub.matchedQuery))
                  || (r.sub.body.JStr? && ContainsWord(r.sub.body.s, r.sub.matchedQuery)))
  {
    var r := ProcessLine(parse, query, line);
    if r.Accepted? {
      var obj := parse(line).value.fields;
      var s := SearchFrom(obj, query, 0);
      if s.field == 0 {
        assert r.sub.title == Get(obj, "title", JStr(""));
      } else {
        assert r.sub.body == Get(obj, "selftext", JStr(""));
      }
    }
  }

  /** A line without a truthy `id` or `subreddit`, or without an integer
      `created_utc`, is never counted as a match nor buffered. */
  lemma InvalidNeverCounted(parse: Parser, query: seq<string>, line: string)
    requires parse(line).Some? && parse(line).value.JObject?
    requires !Admissible(parse(line).value.fields)
    ensures ProcessLine(parse, query, line) == Skipped
  {
  }

  /** Without a single matching term in either field, nothing is buffered. */
  lemma NoMatchNoRow(parse: Parser, query: seq<string>, line: string)
    requires parse(line).Some? && parse(line).value.JObject?
    requires forall g :: 0 <= g < |SearchFields| ==> Misses(parse(line).value.fields, query, g)
    ensures !ProcessLine(parse, query, line).Counted()
  {
  }

  /** `"Milano"` occurs as a whole word in `"Milano is beautiful"`. */
  lemma WholeWordExample()
    ensures ContainsWord("Milano is beautiful", "milano")
  {
    var t := "Milano is beautiful";
    assert t[0..6] == "Milano";
    assert LowerStr("Milano") == "milano";
    assert LowerStr("milano") == "milano";
    assert WholeWordAt(t, "milano", 0);
  }

  /** `"Milano"` does not occur as a whole word in `"Milanofoo"`: the only
      place it starts is followed by a word character. */
  lemma PartWordExample()
    ensures !ContainsWord("Milanofoo", "milano")
  {
    var t := "Milanofoo";
    forall i | WholeWordAt(t, "milano", i)
      ensures false
    {
      if i == 0 {
        assert WordAt(t, 6);
      }
    }
  }
}
