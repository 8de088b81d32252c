// The student's application form (src/components/AdmissionForm.jsx): the
// form state and its change handlers, the 12th-standard cutoff effect, the
// application number and status given on submission, the ranked school
// suggestions and the keyboard handling of the suggestion list.
module AdmissionForm {
  import opened Text
  import opened Records
  import Dashboard
  import CounselorChat

  // ---------------------------------------------------------------------
  // Form state

  /** A form entry: plain text, or one of the nested mark groups. */
  datatype FormValue = Plain(text: string) | Group(fields: map<string, string>)

  /** `formData`: the entries of the form by name. */
  type FormData = map<string, FormValue>

  /** The text of a top-level entry, if it has one. */
  function FieldText(f: FormData, name: string): Option<string> {
    if name in f && f[name].Plain? then Some(f[name].text) else None
  }

  /** `formData[category][field]`, if present. */
  function NestedValue(f: FormData, category: string, field: string): Option<string> {
    if category in f && f[category].Group? && field in f[category].fields
    then Some(f[category].fields[field])
    else None
  }

  /** The state the form starts in: today's date, `'NO'` for the yes/no
      selections, empty text elsewhere, and empty mark groups. */
  function InitialForm(today: string): (f: FormData)
    ensures FieldText(f, "date") == Some(today)
    ensures FieldText(f, "district") == Some("")
  {
    map[
      "date" := Plain(today), "institution" := Plain(""), "course" := Plain(""),
      "studentName" := Plain(""), "gender" := Plain(""), "dob" := Plain(""),
      "aadhaarNo" := Plain(""), "quota" := Plain(""), "fatherName" := Plain(""),
      "fatherOccupation" := Plain(""), "motherName" := Plain(""),
      "motherOccupation" := Plain(""), "annualIncome" := Plain(""),
      "community" := Plain(""), "district" := Plain(""), "address" := Plain(""),
      "pincode" := Plain(""), "phone1" := Plain(""), "phone2" := Plain(""),
      "phone3" := Plain(""), "schoolName" := Plain(""), "schoolType" := Plain(""),
      "boardOfStudy" := Plain(""), "mediumOfInstruction" := Plain(""),
      "marks10th" := Group(map["total" := "", "maths" := "", "science" := ""]),
      "marks11th" := Group(map["total" := "", "phyEco" := "", "cheComm" := "",
                               "mathsAccs" := "", "compBio" := ""]),
      "marks12th" := Group(map["total" := "", "phyEco" := "", "cheComm" := "",
                               "mathsAccs" := "", "compBio" := "", "regNo" := "",
                               "cutoff" := ""]),
      "firstGrad" := Plain("NO"), "pmss" := Plain("NO"), "laptop" := Plain("NO"),
      "bus" := Plain("NO"), "busPoint" := Plain(""), "hostel" := Plain("NO")
    ]
  }

  /** `handleChange`: `{...prev, [name]: value}`. The entry `name` becomes
      the text `value`; every other entry is as before. */
  function SetField(f: FormData, name: string, value: string): (r: FormData)
    ensures r.Keys == f.Keys + {name}
    ensures FieldText(r, name) == Some(value)
    ensures forall n | n != name :: FieldText(r, n) == FieldText(f, n)
    ensures forall c, fl | c != name :: NestedValue(r, c, fl) == NestedValue(f, c, fl)
  {
    f[name := Plain(value)]
  }

  /** `handleNestedChange`: `{...prev, [category]: {...prev[category], [field]: value}}`.
      A category that is not a group starts from an empty group. Exactly
      `formData[category][field]` changes. */
  function SetNested(f: FormData, category: string, field: string, value: string): (r: FormData)
    ensures r.Keys == f.Keys + {category}
    ensures NestedValue(r, category, field) == Some(value)
    ensures forall c, fl | c != category || fl != field ::
      NestedValue(r, c, fl) == NestedValue(f, c, fl)
    ensures forall n | n != category :: FieldText(r, n) == FieldText(f, n)
  {
    var base := if category in f && f[category].Group? then f[category].fields else map[];
    f[category := Group(base[field := value])]
  }

  // ---------------------------------------------------------------------
  // The cutoff effect

  /** The number at the start of `t`: one optional sign, then the longest
      digit run; no digits gives 0. */
  function NumberPrefix(t: string): int {
    var signed := t != [] && (t[0] == '-' || t[0] == '+');
    var body := if signed then t[1..] else t;
    var n: int := DigitsValue(body[..DigitRunEnd(body, 0)]);
    if signed && t[0] == '-' then -n else n
  }

  /** `parseFloat(v) || 0` on the integer part of a mark: leading
      whitespace is skipped, then the number prefix is read; a missing,
      blank or non-numeric mark gives 0. */
  function ParseMark(v: Option<string>): int {
    match v
    case None => 0
    case Some(s) => NumberPrefix(TrimStart(s))
  }

  lemma TrimStartKeeps(s: string)
    requires s != [] && !IsJsWhitespace(s[0])
    ensures TrimStart(s) == s
  {
  }

  /** A whole string of digits is read entirely. */
  lemma DigitsReadWhole(d: string)
    requires AllDigits(d)
    ensures DigitsValue(d[..DigitRunEnd(d, 0)]) == DigitsValue(d)
  {
    assert d[0..|d|] == d;
    DigitRunEndUnique(d, 0, |d|);
    assert d[..|d|] == d;
  }

  /** The number prefix of an integer's decimal text is that integer. */
  lemma NumberPrefixOfInt(i: int)
    ensures NumberPrefix(IntToString(i)) == i
  {
    var a := if i < 0 then -i else i;
    var d := NatToString(a);
    NatToStringRoundTrip(a);
    DigitsReadWhole(d);
    if i < 0 {
      assert IntToString(i)[1..] == d;
    } else {
      assert IntToString(i) == d && !(d[0] == '-' || d[0] == '+');
    }
  }

  /** An integer's decimal text reads back as that integer. */
  lemma ParseMarkRoundTrip(i: int)
    ensures ParseMark(Some(IntToString(i))) == i
  {
    var s := IntToString(i);
    if i < 0 {
      assert s[0] == '-';
    } else {
      NatToStringRoundTrip(i);
      assert IsDigit(s[0]);
    }
    assert !IsJsWhitespace(s[0]);
    TrimStartKeeps(s);
    NumberPrefixOfInt(i);
  }

  /** A blank mark counts as 0. */
  lemma ParseMarkBlank()
    ensures ParseMark(Some("")) == 0 && ParseMark(None) == 0
  {
  }

  /** `m + p/2 + c/2` counted in hundredths, which is exact for integer marks. */
  function CutoffHundredths(m: int, p: int, c: int): int {
    100 * m + 50 * p + 50 * c
  }

  /** `(h / 100).toFixed(2)`: an optional minus sign, the whole part, a
      point and exactly two decimals. */
  function FormatFixed2(h: int): string {
    var a := if h < 0 then -h else h;
    (if h < 0 then "-" else "") + NatToString(a / 100) + "."
      + [DigitChar(a / 10 % 10), DigitChar(a % 10)]
  }

  /** Reads digits, a point and exactly two decimals back into hundredths. */
  function ParseUnsignedFixed2(body: string): Option<nat> {
    if |body| < 4 || body[|body| - 3] != '.' then None
    else if !AllDigits(body[..|body| - 3]) || !AllDigits(body[|body| - 2..]) then None
    else Some(DigitsValue(body[..|body| - 3]) * 100 + DigitsValue(body[|body| - 2..]))
  }

  /** Reads a number written with exactly two decimals, with an optional
      minus sign, back into hundredths. */
  function ParseFixed2(s: string): Option<int> {
    if s != [] && s[0] == '-' then
      match ParseUnsignedFixed2(s[1..])
      case None => None
      case Some(v) => Some(-(v as int))
    else
      match ParseUnsignedFixed2(s)
      case None => None
      case Some(v) => Some(v)
  }

  /** Two decimal digits read back as the value that produced them. */
  lemma TwoDigitsValue(x: nat)
    requires x < 100
    ensures DigitsValue([DigitChar(x / 10), DigitChar(x % 10)]) == x
  {
    var s := [DigitChar(x / 10), DigitChar(x % 10)];
    assert s[..1] == [DigitChar(x / 10)];
    assert s[..1][..0] == [];
    assert DigitsValue(s[..1]) == x / 10;
    assert DigitsValue(s) == DigitsValue(s[..1]) * 10 + DigitValue(s[1]);
    assert x == x / 10 * 10 + x % 10;
  }

  /** The two-decimal rendering loses nothing: it reads back as the same
      number of hundredths. */
  lemma FormatFixed2RoundTrip(h: int)
    ensures ParseFixed2(FormatFixed2(h)) == Some(h)
  {
    var a := if h < 0 then -h else h;
    NatToStringRoundTrip(a / 100);
    HundredthsDigits(a);
    var d := Decimal(NatToString(a / 100), a % 100);
    DecimalReadBack(NatToString(a / 100), a % 100);
    assert d[0] == NatToString(a / 100)[0] && IsDigit(d[0]);
    if h < 0 {
      assert FormatFixed2(h) == "-" + d;
      assert ("-" + d)[1..] == d;
    } else {
      assert FormatFixed2(h) == d;
    }
  }

  /** The digits `a / 10 % 10` and `a % 10` are those of `a % 100`. */
  lemma HundredthsDigits(a: nat)
    ensures a / 10 % 10 == (a % 100) / 10 && a % 10 == (a % 100) % 10
    ensures a == a / 100 * 100 + a % 100
  {
    var q, r := a / 100, a % 100;
    var t, u := r / 10, r % 10;
    assert a == 100 * q + r && r == 10 * t + u && t < 10;
    assert a == 10 * (10 * q + t) + u;
    assert a / 10 == 10 * q + t && a % 10 == u;
    assert (10 * q + t) % 10 == t;
  }

  /** A whole part, a point and two decimals. */
  function Decimal(w: string, x: nat): string
    requires x < 100
  {
    w + "." + [DigitChar(x / 10), DigitChar(x % 10)]
  }

  lemma DecimalReadBack(w: string, x: nat)
    requires x < 100 && w != [] && AllDigits(w)
    ensures ParseUnsignedFixed2(Decimal(w, x)) == Some(DigitsValue(w) * 100 + x)
  {
    var body := Decimal(w, x);
    var tail := [DigitChar(x / 10), DigitChar(x % 10)];
    TwoDigitsValue(x);
    assert body[..|body| - 3] == w;
    assert body[|body| - 2..] == tail;
  }

  /** The cutoff text the effect computes; `None` when all three marks are 0
      and the effect does nothing. */
  function Cutoff(m: int, p: int, c: int): Option<string> {
    if m != 0 || p != 0 || c != 0 then Some(FormatFixed2(CutoffHundredths(m, p, c))) else None
  }

  /** A cutoff is produced exactly when some mark is non-zero, and it is the
      exact value of `m + p/2 + c/2` with two decimals. */
  lemma CutoffValue(m: int, p: int, c: int)
    ensures Cutoff(m, p, c).Some? <==> (m != 0 || p != 0 || c != 0)
    ensures Cutoff(m, p, c).Some? ==>
      ParseFixed2(Cutoff(m, p, c).value) == Some(100 * m + 50 * p + 50 * c)
  {
    FormatFixed2RoundTrip(CutoffHundredths(m, p, c));
  }

  /** Marks 90, 80 and 85 give "172.50". */
  lemma CutoffExample()
    ensures Cutoff(90, 80, 85) == Some("172.50")
  {
    assert CutoffHundredths(90, 80, 85) == 17250;
    assert 17250 / 100 == 172 && 17250 / 10 % 10 == 5 && 17250 % 10 == 0;
    assert 172 / 10 == 17 && 172 % 10 == 2 && 17 / 10 == 1 && 17 % 10 == 7;
    assert NatToString(1) == "1";
    assert NatToString(17) == "17";
    assert NatToString(172) == "172";
    assert DigitChar(5) == '5' && DigitChar(0) == '0';
    assert [DigitChar(5), DigitChar(0)] == "50";
    assert FormatFixed2(17250) == "172" + "." + "50";
    assert "172" + "." + "50" == "172.50";
  }

  /** The three marks the effect reads: maths/accountancy, physics/economics,
      chemistry/commerce. */
  function Marks(f: FormData): (int, int, int) {
    (ParseMark(NestedValue(f, "marks12th", "mathsAccs")),
     ParseMark(NestedValue(f, "marks12th", "phyEco")),
     ParseMark(NestedValue(f, "marks12th", "cheComm")))
  }

  /** The cutoff effect: writes `marks12th.cutoff` when a cutoff is due and
      differs from the stored one. */
  function CutoffUpdate(f: FormData): FormData {
    var (m, p, c) := Marks(f);
    match Cutoff(m, p, c)
    case None => f
    case Some(v) =>
      if NestedValue(f, "marks12th", "cutoff") != Some(v)
      then SetNested(f, "marks12th", "cutoff", v)
      else f
  }

  /** The effect touches nothing but `marks12th.cutoff`. */
  lemma CutoffUpdateOnlyCutoff(f: FormData)
    ensures forall n :: FieldText(CutoffUpdate(f), n) == FieldText(f, n)
    ensures forall c, fl | c != "marks12th" || fl != "cutoff" ::
      NestedValue(CutoffUpdate(f), c, fl) == NestedValue(f, c, fl)
  {
  }

  /** With all three marks 0 the cutoff is not written. */
  lemma CutoffUpdateAllZero(f: FormData)
    requires Marks(f) == (0, 0, 0)
    ensures CutoffUpdate(f) == f
  {
  }

  /** With some mark non-zero, the stored cutoff afterwards is the computed one. */
  lemma CutoffUpdateWrites(f: FormData)
    requires Marks(f) != (0, 0, 0)
    ensures NestedValue(CutoffUpdate(f), "marks12th", "cutoff") ==
      Some(FormatFixed2(CutoffHundredths(Marks(f).0, Marks(f).1, Marks(f).2)))
  {
  }

  /** Running the effect again after it has run changes nothing. */
  lemma CutoffUpdateIdempotent(f: FormData)
    ensures CutoffUpdate(CutoffUpdate(f)) == CutoffUpdate(f)
  {
    var g := CutoffUpdate(f);
    CutoffUpdateOnlyCutoff(f);
    assert Marks(g) == Marks(f);
  }

  /** The fresh form has blank marks, so the effect leaves it alone. */
  lemma InitialFormHasNoCutoff(today: string)
    ensures CutoffUpdate(InitialForm(today)) == InitialForm(today)
  {
    var f := InitialForm(today);
    assert NestedValue(f, "marks12th", "mathsAccs") == Some("");
    assert NestedValue(f, "marks12th", "phyEco") == Some("");
    assert NestedValue(f, "marks12th", "cheComm") == Some("");
    ParseMarkBlank();
  }

  // ---------------------------------------------------------------------
  // Submission

  /** `` `APP-${year}-${random}` ``. */
  function AppNumber(year: int, random: nat): string {
    "APP-" + IntToString(year) + "-" + NatToString(random)
  }

  /** For a random part in [1000, 9999] the number ends in a dash and four
      digits that read back as the random part. */
  lemma AppNumberShape(year: int, random: nat)
    requires 1000 <= random <= 9999
    ensures var s := AppNumber(year, random);
      |s| >= 10 && s[..4] == "APP-" && s[|s| - 5] == '-'
      && AllDigits(s[|s| - 4..]) && DigitsValue(s[|s| - 4..]) == random
  {
    var s := AppNumber(year, random);
    NatToStringFourDigits(random);
    NatToStringRoundTrip(random);
    var y := IntToString(year);
    assert |y| >= 1 by {
      if year < 0 { NatToStringRoundTrip(-year); } else { NatToStringRoundTrip(year); }
    }
    assert s == "APP-" + y + "-" + NatToString(random);
    assert s[|s| - 4..] == NatToString(random);
    assert s[..4] == "APP-";
  }

  /** With a four-digit year the number is thirteen characters of the
      form `APP-dddd-dddd`. */
  lemma AppNumberMatchesPattern(year: int, random: nat)
    requires 1000 <= year <= 9999 && 1000 <= random <= 9999
    ensures var s := AppNumber(year, random);
      |s| == 13 && CounselorChat.AppPatternAt(s, 0)
  {
    var y, r := NatToString(year), NatToString(random);
    NatToStringFourDigits(year);
    NatToStringFourDigits(random);
    NatToStringRoundTrip(year);
    NatToStringRoundTrip(random);
    var s := AppNumber(year, random);
    assert s == "APP-" + y + "-" + r;
    assert s[4..8] == y && s[9..13] == r;
    assert LowerChar(s[0]) == 'a' && LowerChar(s[1]) == 'p' && LowerChar(s[2]) == 'p';
  }

  /** With a four-digit year the whole number is one match of the
      application-number pattern, so the counselor chat extracts all of it. */
  lemma AppNumberFoundByChat(year: int, random: nat)
    requires 1000 <= year <= 9999 && 1000 <= random <= 9999
    ensures var s := AppNumber(year, random);
      |s| == 13 && CounselorChat.AppPatternAt(s, 0)
      && CounselorChat.SearchToken(s) == ToLower(s)
  {
    var s := AppNumber(year, random);
    AppNumberMatchesPattern(year, random);
    assert CounselorChat.FirstAppPattern(s, 0) == Some(0);
    assert s[0..13] == s;
  }

  /** The record kept in storage after a successful submission: the form
      with the application number, the `'Pending'` status and the
      `Date.now()` id. */
  function Submission(f: FormData, appNo: string, now: int): (a: Admission)
    ensures a.appNumber == Some(appNo) && a.id == Some(now)
    ensures a.status == Some(Dashboard.Pending)
    ensures a.studentName == FieldText(f, "studentName")
    ensures a.schoolName == FieldText(f, "schoolName")
    ensures a.district == FieldText(f, "district")
  {
    Admission(
      Some(now), Some(appNo),
      FieldText(f, "studentName"), FieldText(f, "course"), FieldText(f, "institution"),
      FieldText(f, "phone1"), FieldText(f, "phone2"), FieldText(f, "phone3"),
      FieldText(f, "schoolName"), FieldText(f, "aadhaarNo"), FieldText(f, "district"),
      Some(Dashboard.Pending))
  }

  /** A new submission raises the dashboard's Pending counter by one and
      leaves its Processed counter as it was. */
  lemma SubmissionCountsPending(stored: seq<Admission>, f: FormData, appNo: string, now: int)
    ensures Dashboard.PendingCount(stored + [Submission(f, appNo, now)]) ==
      Dashboard.PendingCount(stored) + 1
    ensures Dashboard.ApprovedCount(stored + [Submission(f, appNo, now)]) ==
      Dashboard.ApprovedCount(stored)
  {
    var a := Submission(f, appNo, now);
    FilterAppend(stored, [a], Dashboard.IsPending);
    FilterAppend(stored, [a], Dashboard.IsApproved);
    assert Filter([a], Dashboard.IsPending) == [a];
    assert Filter([a], Dashboard.IsApproved) == [];
  }

  // ---------------------------------------------------------------------
  // School suggestions

  /** The filter of `filteredSchools`: a non-empty school name containing
      the query, both lowered. */
  predicate NameMatches(s: SchoolBlock, query: string) {
    s.schoolName != "" && Contains(ToLower(s.schoolName), ToLower(query))
  }

  /** The school is in the district the student typed (only when one is typed). */
  predicate InDistrict(s: SchoolBlock, district: string) {
    district != "" && ToLower(s.district) == ToLower(district)
  }

  /** The school's name starts with the query, both lowered. */
  predicate StartsWithQuery(s: SchoolBlock, query: string) {
    IsPrefix(ToLower(query), ToLower(s.schoolName))
  }

  /** The comparator returns -1 for `(a, b)`: same-district schools first,
      then names starting with the query, then by lowered name. */
  predicate Precedes(a: SchoolBlock, b: SchoolBlock, district: string, query: string) {
    if InDistrict(a, district) != InDistrict(b, district) then InDistrict(a, district)
    else if StartsWithQuery(a, query) != StartsWithQuery(b, query) then StartsWithQuery(a, query)
    else LexLess(ToLower(a.schoolName), ToLower(b.schoolName))
  }

  lemma PrecedesIrreflexive(a: SchoolBlock, district: string, query: string)
    ensures !Precedes(a, a, district, query)
  {
    LexLessIrreflexive(ToLower(a.schoolName));
  }

  lemma PrecedesAsymmetric(a: SchoolBlock, b: SchoolBlock, district: string, query: string)
    ensures Precedes(a, b, district, query) ==> !Precedes(b, a, district, query)
  {
    if Precedes(a, b, district, query) && InDistrict(a, district) == InDistrict(b, district)
       && StartsWithQuery(a, query) == StartsWithQuery(b, query) {
      LexLessAsymmetric(ToLower(a.schoolName), ToLower(b.schoolName));
    }
  }

  /** The comparator is a strict weak order: not preceding is transitive. */
  lemma PrecedesNegTransitive(a: SchoolBlock, b: SchoolBlock, c: SchoolBlock,
                              district: string, query: string)
    ensures !Precedes(a, b, district, query) && !Precedes(b, c, district, query) ==>
      !Precedes(a, c, district, query)
  {
    var na, nb, nc := ToLower(a.schoolName), ToLower(b.schoolName), ToLower(c.schoolName);
    if InDistrict(a, district) == InDistrict(b, district) == InDistrict(c, district)
       && StartsWithQuery(a, query) == StartsWithQuery(b, query) == StartsWithQuery(c, query)
       && !LexLess(na, nb) && !LexLess(nb, nc) && na != nb {
      LexLessTotal(na, nb);
      if LexLess(na, nc) {
        LexLessTransitive(nb, na, nc);
      }
    }
  }

  /** Sorted for the comparator: no later school precedes an earlier one. */
  predicate Sorted(xs: seq<SchoolBlock>, district: string, query: string) {
    forall i, j | 0 <= i < j < |xs| :: !Precedes(xs[j], xs[i], district, query)
  }

  /** Inserts `x` before the first school that does not precede it. */
  function Insert(x: SchoolBlock, xs: seq<SchoolBlock>, district: string, query: string)
    : (r: seq<SchoolBlock>)
    ensures multiset(r) == multiset(xs) + multiset{x} && |r| == |xs| + 1
    decreases |xs|
  {
    if xs == [] then [x]
    else if Precedes(xs[0], x, district, query) then
      assert xs == [xs[0]] + xs[1..];
      [xs[0]] + Insert(x, xs[1..], district, query)
    else [x] + xs
  }

  /** `Array.prototype.sort` with the comparator: a stable insertion sort. */
  function SortSchools(xs: seq<SchoolBlock>, district: string, query: string)
    : (r: seq<SchoolBlock>)
    ensures multiset(r) == multiset(xs) && |r| == |xs|
    decreases |xs|
  {
    if xs == [] then []
    else
      assert xs == [xs[0]] + xs[1..];
      Insert(xs[0], SortSchools(xs[1..], district, query), district, query)
  }

  lemma SortedTail(xs: seq<SchoolBlock>, district: string, query: string)
    requires xs != [] && Sorted(xs, district, query)
    ensures Sorted(xs[1..], district, query)
  {
    forall i, j | 0 <= i < j < |xs| - 1
      ensures !Precedes(xs[1..][j], xs[1..][i], district, query)
    {
      assert xs[1..][j] == xs[j + 1] && xs[1..][i] == xs[i + 1];
    }
  }

  /** A school that no element of a sorted list precedes can go in front. */
  lemma PrependSorted(y: SchoolBlock, ys: seq<SchoolBlock>, district: string, query: string)
    requires Sorted(ys, district, query)
    requires forall j | 0 <= j < |ys| :: !Precedes(ys[j], y, district, query)
    ensures Sorted([y] + ys, district, query)
  {
    var r := [y] + ys;
    forall i, j | 0 <= i < j < |r| ensures !Precedes(r[j], r[i], district, query) {
      assert r[j] == ys[j - 1];
      if i > 0 {
        assert r[i] == ys[i - 1];
      }
    }
  }

  /** Every element of `Insert(x, xs)` is `x` or an element of `xs`. */
  lemma InsertElement(x: SchoolBlock, xs: seq<SchoolBlock>, district: string, query: string, j: nat)
    requires j < |xs| + 1
    ensures var r := Insert(x, xs, district, query);
      r[j] == x || exists k | 0 <= k < |xs| :: xs[k] == r[j]
  {
    var r := Insert(x, xs, district, query);
    assert r[j] in multiset(r);
    if r[j] != x {
      assert r[j] in multiset(xs);
      assert r[j] in xs;
    }
  }

  lemma {:induction false} InsertSorted(x: SchoolBlock, xs: seq<SchoolBlock>,
                                        district: string, query: string)
    requires Sorted(xs, district, query)
    ensures Sorted(Insert(x, xs, district, query), district, query)
    decreases |xs|
  {
    if xs == [] {
    } else if Precedes(xs[0], x, district, query) {
      SortedTail(xs, district, query);
      InsertSorted(x, xs[1..], district, query);
      var rest := Insert(x, xs[1..], district, query);
      forall j | 0 <= j < |rest| ensures !Precedes(rest[j], xs[0], district, query) {
        InsertElement(x, xs[1..], district, query, j);
        if rest[j] == x {
          PrecedesAsymmetric(xs[0], x, district, query);
        } else {
          var k :| 0 <= k < |xs[1..]| && xs[1..][k] == rest[j];
          assert xs[k + 1] == rest[j];
        }
      }
      PrependSorted(xs[0], rest, district, query);
    } else {
      forall j | 0 <= j < |xs| ensures !Precedes(xs[j], x, district, query) {
        if j > 0 {
          PrecedesNegTransitive(xs[j], xs[0], x, district, query);
        }
      }
      PrependSorted(x, xs, district, query);
    }
  }

  /** The sort returns the same schools, ordered by the comparator. */
  lemma {:induction false} SortSchoolsSorted(xs: seq<SchoolBlock>, district: string, query: string)
    ensures Sorted(SortSchools(xs, district, query), district, query)
    decreases |xs|
  {
    if xs != [] {
      SortSchoolsSorted(xs[1..], district, query);
      InsertSorted(xs[0], SortSchools(xs[1..], district, query), district, query);
    }
  }

  /** At most this many suggestions are shown. */
  const MaxSuggestions := 15

  /** The schools behind `filteredSchools`: none for a query that trims to
      `''` (one that is whitespace only), else the
      matching schools ranked and cut to the first 15. */
  function RankedSchools(schools: seq<SchoolBlock>, query: string, district: string)
    : seq<SchoolBlock>
  {
    if Blank(query) then []
    else
      var sorted := SortSchools(Filter(schools, s => NameMatches(s, query)), district, query);
      sorted[..if |sorted| < MaxSuggestions then |sorted| else MaxSuggestions]
  }

  /** `` `${s.school_name} - ${s.address || s.district}` ``. */
  function Display(s: SchoolBlock): string {
    s.schoolName + " - " + (if s.address != "" then s.address else s.district)
  }

  /** `filteredSchools`: the display text of each ranked school. */
  function Suggestions(schools: seq<SchoolBlock>, query: string, district: string): seq<string> {
    var ranked := RankedSchools(schools, query, district);
    seq(|ranked|, i requires 0 <= i < |ranked| => Display(ranked[i]))
  }

  /** No suggestions for a blank query; otherwise at most 15, each drawn
      from the directory, each one's name containing the query, and their
      display texts in rank order. */
  lemma SuggestionsContents(schools: seq<SchoolBlock>, query: string, district: string)
    ensures Blank(query) ==> RankedSchools(schools, query, district) == []
    ensures |RankedSchools(schools, query, district)| <= MaxSuggestions
    ensures forall i | 0 <= i < |RankedSchools(schools, query, district)| ::
      RankedSchools(schools, query, district)[i] in schools
      && NameMatches(RankedSchools(schools, query, district)[i], query)
    ensures |Suggestions(schools, query, district)| == |RankedSchools(schools, query, district)|
    ensures forall i | 0 <= i < |Suggestions(schools, query, district)| ::
      Suggestions(schools, query, district)[i] == Display(RankedSchools(schools, query, district)[i])
  {
    var r := RankedSchools(schools, query, district);
    if !Blank(query) {
      var matches := Filter(schools, s => NameMatches(s, query));
      var sorted := SortSchools(matches, district, query);
      forall i | 0 <= i < |r| ensures r[i] in schools && NameMatches(r[i], query) {
        assert r[i] == sorted[i];
        assert sorted[i] in multiset(matches);
        var k :| 0 <= k < |matches| && matches[k] == sorted[i];
      }
    }
  }

  /** The ranked list is sorted for the comparator: when a district is
      typed, its schools come first; within that, names starting with the
      query come first; within that, names in order. */
  lemma RankedOrder(schools: seq<SchoolBlock>, query: string, district: string)
    ensures var r := RankedSchools(schools, query, district);
      forall i, j | 0 <= i < j < |r| ::
        (InDistrict(r[j], district) ==> InDistrict(r[i], district))
        && (InDistrict(r[i], district) == InDistrict(r[j], district) ==>
              (StartsWithQuery(r[j], query) ==> StartsWithQuery(r[i], query)))
        && (InDistrict(r[i], district) == InDistrict(r[j], district)
            && StartsWithQuery(r[i], query) == StartsWithQuery(r[j], query) ==>
              !LexLess(ToLower(r[j].schoolName), ToLower(r[i].schoolName)))
  {
    var r := RankedSchools(schools, query, district);
    if !Blank(query) {
      var sorted := SortSchools(Filter(schools, s => NameMatches(s, query)), district, query);
      SortSchoolsSorted(Filter(schools, s => NameMatches(s, query)), district, query);
      forall i, j | 0 <= i < j < |r| ensures !Precedes(r[j], r[i], district, query) {
        assert r[i] == sorted[i] && r[j] == sorted[j];
      }
    }
  }

  /** When there are at most 15 matches, every matching school is
      suggested, as often as the directory lists it. */
  lemma FewMatchesAllShown(schools: seq<SchoolBlock>, query: string, district: string)
    requires !Blank(query)
    requires |Filter(schools, s => NameMatches(s, query))| <= MaxSuggestions
    ensures multiset(RankedSchools(schools, query, district)) ==
      multiset(Filter(schools, s => NameMatches(s, query)))
  {
    var sorted := SortSchools(Filter(schools, s => NameMatches(s, query)), district, query);
    assert sorted[..|sorted|] == sorted;
  }

  /** A sorted list's prefix holds no extra copies, and what it leaves out
      precedes nothing in the prefix. */
  lemma SortedPrefixIsTop(sorted: seq<SchoolBlock>, k: nat, district: string, query: string)
    requires k <= |sorted| && Sorted(sorted, district, query)
    ensures multiset(sorted[..k]) <= multiset(sorted)
    ensures forall y | multiset(sorted[..k])[y] < multiset(sorted)[y] ::
      forall i | 0 <= i < k :: !Precedes(y, sorted[i], district, query)
  {
    assert sorted == sorted[..k] + sorted[k..];
    forall y | multiset(sorted[..k])[y] < multiset(sorted)[y]
      ensures forall i | 0 <= i < k :: !Precedes(y, sorted[i], district, query)
    {
      assert y in multiset(sorted[k..]);
      var j :| 0 <= j < |sorted[k..]| && sorted[k..][j] == y;
      assert y == sorted[k + j];
    }
  }

  /** The cut keeps the head of the ranking: for a query that is not blank,
      the first 15 matches are shown (all of them when there are fewer),
      each shown as often as it matches at most, and no matching school
      the cut drops precedes any shown one. */
  lemma TopOfRanking(schools: seq<SchoolBlock>, query: string, district: string)
    ensures var matches := Filter(schools, s => NameMatches(s, query));
      !Blank(query) ==> (|RankedSchools(schools, query, district)| ==
        if |matches| < MaxSuggestions then |matches| else MaxSuggestions)
    ensures var matches := Filter(schools, s => NameMatches(s, query));
      var ranked := RankedSchools(schools, query, district);
      forall y | multiset(ranked)[y] < multiset(matches)[y] ::
        forall i | 0 <= i < |ranked| :: !Precedes(y, ranked[i], district, query)
    ensures !Blank(query) ==> (multiset(RankedSchools(schools, query, district)) <=
      multiset(Filter(schools, s => NameMatches(s, query))))
  {
    if !Blank(query) {
      var matches := Filter(schools, s => NameMatches(s, query));
      var sorted := SortSchools(matches, district, query);
      var k := if |sorted| < MaxSuggestions then |sorted| else MaxSuggestions;
      var ranked := RankedSchools(schools, query, district);
      assert ranked == sorted[..k];
      SortSchoolsSorted(matches, district, query);
      SortedPrefixIsTop(sorted, k, district, query);
      assert forall i | 0 <= i < |ranked| :: ranked[i] == sorted[i];
    }
  }

  /** The district changes the order of the suggestions, never how many there are. */
  lemma SuggestionCountIgnoresDistrict(schools: seq<SchoolBlock>, query: string, d1: string, d2: string)
    ensures |Suggestions(schools, query, d1)| == |Suggestions(schools, query, d2)|
  {
  }

  // ---------------------------------------------------------------------
  // Keyboard handling of the suggestion list

  /** ArrowDown: one step down unless already on the last suggestion. It
      never moves up, and from a position in [-1, len-1] it stays there. */
  function ArrowDown(prev: int, len: nat): (r: int)
    ensures prev <= r <= prev + 1
    ensures -1 <= prev <= len - 1 ==> -1 <= r <= len - 1
    ensures r == prev + 1 <==> prev < len - 1
  {
    if prev < len - 1 then prev + 1 else prev
  }

  /** ArrowUp: one step up unless on the first suggestion or none. It
      never moves down, never goes below 0 from 0 or above, and stays in
      [-1, len-1] from there. */
  function ArrowUp(prev: int): (r: int)
    ensures prev - 1 <= r <= prev
    ensures prev >= 0 ==> r >= 0
    ensures r == prev - 1 <==> prev > 0
  {
    if prev > 0 then prev - 1 else prev
  }

  /** What Enter does to the school field. */
  datatype EnterEffect = Picked(school: string) | Ignored | PickedUndefined

  /** Enter as written: with `selectedIndex >= 0` it takes
      `filteredSchools[selectedIndex]` without checking the bound, which is
      `undefined` past the end. */
  function EnterAsWritten(suggestions: seq<string>, selectedIndex: int): (e: EnterEffect)
    ensures e == PickedUndefined <==> selectedIndex >= |suggestions|
    ensures e == Ignored <==> selectedIndex < 0
    ensures 0 <= selectedIndex < |suggestions| ==> e == Picked(suggestions[selectedIndex])
  {
    if selectedIndex < 0 then Ignored
    else if selectedIndex < |suggestions| then Picked(suggestions[selectedIndex])
    else PickedUndefined
  }

  /** Enter with the bound checked: it picks a suggestion that is listed,
      or does nothing. */
  function EnterKey(suggestions: seq<string>, selectedIndex: int): (e: EnterEffect)
    ensures e != PickedUndefined
    ensures e.Picked? <==> 0 <= selectedIndex < |suggestions|
    ensures e.Picked? ==> e.school in suggestions && e.school == suggestions[selectedIndex]
  {
    if 0 <= selectedIndex < |suggestions| then Picked(suggestions[selectedIndex]) else Ignored
  }

  /** Within the list both versions agree. */
  lemma EnterAgreesInRange(suggestions: seq<string>, selectedIndex: int)
    requires selectedIndex < |suggestions|
    ensures EnterKey(suggestions, selectedIndex) == EnterAsWritten(suggestions, selectedIndex)
  {
  }

  /** A picked display text is longer than any name it could be found in,
      so after a pick from a one-school directory the list is empty while
      `selectedIndex` still points at the pick: a second Enter takes
      `undefined`. */
  lemma SecondEnterTakesUndefined(school: SchoolBlock, query: string, district: string)
    requires !Blank(query) && NameMatches(school, query)
    ensures Suggestions([school], query, district) == [Display(school)]
    ensures EnterAsWritten(Suggestions([school], query, district), 0) == Picked(Display(school))
    ensures Suggestions([school], Display(school), district) == []
    ensures EnterAsWritten(Suggestions([school], Display(school), district), 0) == PickedUndefined
  {
    SingleMatchRanked(school, query, district);
    PickNotFound(school, district);
  }

  /** A one-school directory whose school matches suggests that school. */
  lemma SingleMatchRanked(school: SchoolBlock, query: string, district: string)
    requires !Blank(query) && NameMatches(school, query)
    ensures RankedSchools([school], query, district) == [school]
  {
    var matches := Filter([school], s => NameMatches(s, query));
    assert matches == [school];
    assert SortSchools(matches, district, query) == [school];
  }

  /** A school's display text is longer than its name, so it never matches it. */
  lemma PickNotFound(school: SchoolBlock, district: string)
    ensures RankedSchools([school], Display(school), district) == []
  {
    var picked := Display(school);
    if NameMatches(school, picked) {
      ContainsImpliesShorter(ToLower(school.schoolName), ToLower(picked));
    }
    assert Filter([school], s => NameMatches(s, picked)) == [];
  }

  // ---------------------------------------------------------------------
  // The component's state

  /** The form component: the form, the school search box, the dropdown,
      the highlighted suggestion, the directory fetched from the server,
      the stored applications and the number shown after submitting. */
  class AdmissionFormState {
    const username: string
    var form: FormData
    var schoolQuery: string
    var showDropdown: bool
    var selectedIndex: int
    var dbSchools: seq<SchoolBlock>
    var stored: seq<Admission>
    var submittedAppNumber: Option<string>

    /** `formData.district`, read as `''` when it is not text. */
    function District(): string
      reads this
    {
      OrEmpty(FieldText(form, "district"))
    }

    /** The current `filteredSchools`. */
    function CurrentSuggestions(): seq<string>
      reads this
    {
      Suggestions(dbSchools, schoolQuery, District())
    }

    constructor (user: string, today: string, schools: seq<SchoolBlock>, storage: seq<Admission>)
      ensures username == user && form == InitialForm(today)
      ensures schoolQuery == "" && !showDropdown && selectedIndex == -1
      ensures dbSchools == schools && stored == storage && submittedAppNumber == None
    {
      username := user;
      form := InitialForm(today);
      schoolQuery := "";
      showDropdown := false;
      selectedIndex := -1;
      dbSchools := schools;
      stored := storage;
      submittedAppNumber := None;
    }

    /** `handleChange` on a top-level input. */
    method HandleChange(name: string, value: string)
      modifies this
      ensures form == SetField(old(form), name, value)
      ensures schoolQuery == old(schoolQuery) && selectedIndex == old(selectedIndex)
      ensures showDropdown == old(showDropdown) && dbSchools == old(dbSchools)
      ensures stored == old(stored) && submittedAppNumber == old(submittedAppNumber)
    {
      form := form[name := Plain(value)];
    }

    /** `handleNestedChange` on a mark input. */
    method HandleNestedChange(category: string, field: string, value: string)
      modifies this
      ensures form == SetNested(old(form), category, field, value)
      ensures schoolQuery == old(schoolQuery) && selectedIndex == old(selectedIndex)
      ensures showDropdown == old(showDropdown) && dbSchools == old(dbSchools)
      ensures stored == old(stored) && submittedAppNumber == old(submittedAppNumber)
    {
      var base := if category in form && form[category].Group? then form[category].fields else map[];
      form := form[category := Group(base[field := value])];
    }

    /** The cutoff effect, run after a mark changes. */
    method ApplyCutoff()
      modifies this
      ensures form == CutoffUpdate(old(form))
      ensures schoolQuery == old(schoolQuery) && selectedIndex == old(selectedIndex)
      ensures showDropdown == old(showDropdown) && dbSchools == old(dbSchools)
      ensures stored == old(stored) && submittedAppNumber == old(submittedAppNumber)
    {
      var (m, p, c) := Marks(form);
      var next := Cutoff(m, p, c);
      if next.Some? && NestedValue(form, "marks12th", "cutoff") != Some(next.value) {
        form := SetNested(form, "marks12th", "cutoff", next.value);
      }
    }

    /** Typing in the school box: the query and `schoolName` follow the
        text, the dropdown opens and the highlight is cleared. */
    method TypeSchoolQuery(value: string)
      modifies this
      ensures schoolQuery == value && form == SetField(old(form), "schoolName", value)
      ensures showDropdown && selectedIndex == -1
      ensures dbSchools == old(dbSchools) && stored == old(stored)
      ensures submittedAppNumber == old(submittedAppNumber)
    {
      schoolQuery := value;
      form := form["schoolName" := Plain(value)];
      showDropdown := true;
      selectedIndex := -1;
    }

    /** Focusing the school box opens the dropdown. */
    method Focus()
      modifies this
      ensures showDropdown
      ensures form == old(form) && schoolQuery == old(schoolQuery)
      ensures selectedIndex == old(selectedIndex) && dbSchools == old(dbSchools)
      ensures stored == old(stored) && submittedAppNumber == old(submittedAppNumber)
    {
      showDropdown := true;
    }

    /** ArrowDown in the school box. */
    method ArrowDownKey()
      modifies this
      ensures selectedIndex == ArrowDown(old(selectedIndex), |old(CurrentSuggestions())|)
      ensures old(selectedIndex) < |old(CurrentSuggestions())| ==>
        selectedIndex < |CurrentSuggestions()|
      ensures form == old(form) && schoolQuery == old(schoolQuery)
      ensures showDropdown == old(showDropdown) && dbSchools == old(dbSchools)
      ensures stored == old(stored) && submittedAppNumber == old(submittedAppNumber)
    {
      var n := |Suggestions(dbSchools, schoolQuery, District())|;
      if selectedIndex < n - 1 {
        selectedIndex := selectedIndex + 1;
      }
    }

    /** ArrowUp in the school box. */
    method ArrowUpKey()
      modifies this
      ensures selectedIndex == ArrowUp(old(selectedIndex))
      ensures old(selectedIndex) < |old(CurrentSuggestions())| ==>
        selectedIndex < |CurrentSuggestions()|
      ensures form == old(form) && schoolQuery == old(schoolQuery)
      ensures showDropdown == old(showDropdown) && dbSchools == old(dbSchools)
      ensures stored == old(stored) && submittedAppNumber == old(submittedAppNumber)
    {
      if selectedIndex > 0 {
        selectedIndex := selectedIndex - 1;
      }
    }

    /** Enter in the school box, with the bound checked. The handler sees
        the `filteredSchools` of the render it belongs to. With no
        highlight the handler neither acts nor prevents the default, so
        the browser submits the enclosing form and `handleSubmit` runs; the
        submission's year, random part, clock and server answer are
        parameters as for `Submit`. With a highlight the default is
        prevented: a listed suggestion becomes the school name and the
        query and the dropdown closes, and a highlight past the end of the
        list changes nothing. The picked text is always one of the listed
        suggestions, never `undefined`. */
    method EnterSchool(filtered: seq<string>, year: int, random: nat, now: int, accepted: bool)
      requires filtered == CurrentSuggestions() && 1000 <= random <= 9999
      modifies this
      ensures old(selectedIndex) < 0 ==>
        (accepted ==>
          submittedAppNumber == Some(AppNumber(year, random))
          && stored == old(stored) + [Submission(old(form), AppNumber(year, random), now)])
        && (!accepted ==> submittedAppNumber == old(submittedAppNumber) && stored == old(stored))
        && form == old(form) && schoolQuery == old(schoolQuery) && showDropdown == old(showDropdown)
      ensures EnterKey(filtered, old(selectedIndex)).Picked? ==>
        var school := EnterKey(filtered, old(selectedIndex)).school;
        schoolQuery == school && !showDropdown && form == SetField(old(form), "schoolName", school)
        && stored == old(stored) && submittedAppNumber == old(submittedAppNumber)
      ensures old(selectedIndex) >= |filtered| ==>
        schoolQuery == old(schoolQuery) && form == old(form) && showDropdown == old(showDropdown)
        && stored == old(stored) && submittedAppNumber == old(submittedAppNumber)
      ensures selectedIndex == old(selectedIndex) && dbSchools == old(dbSchools)
    {
      if selectedIndex < 0 {
        Submit(year, random, now, accepted);
        return;
      }
      var effect := EnterKey(filtered, selectedIndex);
      if effect.Picked? {
        var school := effect.school;
        schoolQuery := school;
        showDropdown := false;
        form := SetField(form, "schoolName", school);
      }
    }

    /** Escape closes the dropdown. */
    method EscapeKey()
      modifies this
      ensures !showDropdown
      ensures form == old(form) && schoolQuery == old(schoolQuery)
      ensures selectedIndex == old(selectedIndex) && dbSchools == old(dbSchools)
      ensures stored == old(stored) && submittedAppNumber == old(submittedAppNumber)
    {
      showDropdown := false;
    }

    /** `handleSubmit`. The year, the random part in [1000, 9999] and the
        clock are supplied by the caller, and so is whether the server
        accepted the post. On success the number is shown and the record
        is appended to storage as Pending; on failure nothing changes. */
    method Submit(year: int, random: nat, now: int, accepted: bool)
      requires 1000 <= random <= 9999
      modifies this
      ensures accepted ==>
        submittedAppNumber == Some(AppNumber(year, random))
        && stored == old(stored) + [Submission(old(form), AppNumber(year, random), now)]
      ensures !accepted ==>
        submittedAppNumber == old(submittedAppNumber) && stored == old(stored)
      ensures form == old(form) && schoolQuery == old(schoolQuery)
      ensures selectedIndex == old(selectedIndex) && dbSchools == old(dbSchools)
      ensures showDropdown == old(showDropdown)
    {
      var appNo := "APP-" + IntToString(year) + "-" + NatToString(random);
      if accepted {
        submittedAppNumber := Some(appNo);
        stored := stored + [Submission(form, appNo, now)];
      }
    }
  }
}
