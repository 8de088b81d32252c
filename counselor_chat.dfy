// The counselor assistant (src/components/CounselorChat.jsx): a lookup
// of one application by exact match, then by an extracted token, and an
// append-only comment log per application kept in storage under
// `comments_<appNumber || id>`.
module CounselorChat {
  import opened Text
  import opened Records

  /** One stored comment: its text, the counselor's user name and the ISO
      date string of `new Date().toISOString()` (a parameter here). */
  datatype Comment = Comment(text: string, author: string, date: string)

  /** What the assistant answers to one input. */
  datatype Reply =
    | Greeting
    | Details(student: Admission, comments: seq<Comment>)
    | LookUpFirst
    | CommentSaved(studentName: Option<string>, text: string)
    | NotFound(query: string)

  datatype Message = FromUser(text: string) | FromBot(reply: Reply)

  /** The comment store: storage key to the parsed comment list. */
  type CommentStore = map<string, seq<Comment>>

  // ---------------------------------------------------------------------
  // Step 1: exact match

  /** The test of the first `find`: the lowered app number or lowered name
      equals the lowered query, or the id's decimal text equals the query
      as typed. Absent, empty and zero fields are falsy and never match. */
  predicate ExactMatch(a: Admission, query: string) {
    var lowerQuery := ToLower(query);
    (Truthy(a.appNumber) && ToLower(a.appNumber.value) == lowerQuery)
    || (IdTruthy(a.id) && IntToString(a.id.value) == query)
    || (Truthy(a.studentName) && ToLower(a.studentName.value) == lowerQuery)
  }

  // ---------------------------------------------------------------------
  // Step 2: token extraction and substring match

  /** `/APP-\d{4}-\d{4}/i` matches at index `i`: the letters in either
      case, the dashes and the digits as they are. */
  predicate AppPatternAt(q: string, i: nat) {
    i + 13 <= |q|
    && LowerChar(q[i]) == 'a' && LowerChar(q[i + 1]) == 'p' && LowerChar(q[i + 2]) == 'p'
    && q[i + 3] == '-' && AllDigits(q[i + 4..i + 8])
    && q[i + 8] == '-' && AllDigits(q[i + 9..i + 13])
  }

  /** The leftmost match of the application-number pattern at or after `from`. */
  function FirstAppPattern(q: string, from: nat): (r: Option<nat>)
    requires from <= |q|
    ensures r.Some? ==> from <= r.value && AppPatternAt(q, r.value)
    ensures r.Some? ==> forall j | from <= j < r.value :: !AppPatternAt(q, j)
    ensures r.None? ==> forall j | from <= j <= |q| :: !AppPatternAt(q, j)
    decreases |q| - from
  {
    if from + 13 > |q| then None
    else if AppPatternAt(q, from) then Some(from)
    else FirstAppPattern(q, from + 1)
  }

  /** The leftmost decimal digit at or after `from`. */
  function FirstDigit(q: string, from: nat): (r: Option<nat>)
    requires from <= |q|
    ensures r.Some? ==> from <= r.value < |q| && IsDigit(q[r.value])
    ensures r.Some? ==> forall j | from <= j < r.value :: !IsDigit(q[j])
    ensures r.None? ==> forall j | from <= j < |q| :: !IsDigit(q[j])
    decreases |q| - from
  {
    if from == |q| then None
    else if IsDigit(q[from]) then Some(from)
    else FirstDigit(q, from + 1)
  }

  /** `searchVal`: the first application-number match, else the first run
      of digits, else the whole query, lowered. */
  function SearchToken(query: string): string {
    match FirstAppPattern(query, 0)
    case Some(i) => ToLower(query[i..i + 13])
    case None =>
      match FirstDigit(query, 0)
      case Some(i) => ToLower(query[i..DigitRunEnd(query, i)])
      case None => ToLower(query)
  }

  /** The token is the leftmost application-number match when there is
      one; otherwise the leftmost maximal digit run; otherwise the whole
      lowered query. */
  lemma SearchTokenCases(query: string)
    ensures forall i | 0 <= i <= |query| && AppPatternAt(query, i)
        && (forall j | 0 <= j < i :: !AppPatternAt(query, j)) ::
      SearchToken(query) == ToLower(query[i..i + 13])
    ensures (forall j | 0 <= j <= |query| :: !AppPatternAt(query, j)) ==>
      forall i, k | 0 <= i < k <= |query| && AllDigits(query[i..k])
          && (k == |query| || !IsDigit(query[k]))
          && (forall j | 0 <= j < i :: !IsDigit(query[j])) ::
        SearchToken(query) == query[i..k]
    ensures ((forall j | 0 <= j <= |query| :: !AppPatternAt(query, j))
             && (forall j | 0 <= j < |query| :: !IsDigit(query[j]))) ==>
      SearchToken(query) == ToLower(query)
  {
    forall i | 0 <= i <= |query| && AppPatternAt(query, i)
        && (forall j | 0 <= j < i :: !AppPatternAt(query, j))
      ensures SearchToken(query) == ToLower(query[i..i + 13])
    {
      var r := FirstAppPattern(query, 0);
      assert r.Some? && r.value == i;
    }
    if forall j | 0 <= j <= |query| :: !AppPatternAt(query, j) {
      forall i, k | 0 <= i < k <= |query| && AllDigits(query[i..k])
          && (k == |query| || !IsDigit(query[k]))
          && (forall j | 0 <= j < i :: !IsDigit(query[j]))
        ensures SearchToken(query) == query[i..k]
      {
        assert IsDigit(query[i..k][0]);
        var d := FirstDigit(query, 0);
        assert d.Some? && d.value == i;
        DigitRunEndUnique(query, i, k);
        DigitsUnchangedByLower(query[i..k]);
      }
    }
  }

  lemma DigitsUnchangedByLower(s: string)
    requires AllDigits(s)
    ensures ToLower(s) == s
  {
  }

  /** The test of the second `find`: the token occurs in the lowered app
      number or in the lowered name. */
  predicate FallbackMatch(a: Admission, token: string) {
    (Truthy(a.appNumber) && Contains(ToLower(a.appNumber.value), token))
    || (Truthy(a.studentName) && Contains(ToLower(a.studentName.value), token))
  }

  /** The first index at or after `from` whose record matches `query`
      exactly (`findIndex` with the first test). */
  function FirstExact(admissions: seq<Admission>, query: string, from: nat): (r: Option<nat>)
    requires from <= |admissions|
    ensures r.Some? ==> from <= r.value < |admissions| && ExactMatch(admissions[r.value], query)
    ensures r.Some? ==> forall j | from <= j < r.value :: !ExactMatch(admissions[j], query)
    ensures r.None? ==> forall j | from <= j < |admissions| :: !ExactMatch(admissions[j], query)
    decreases |admissions| - from
  {
    if from == |admissions| then None
    else if ExactMatch(admissions[from], query) then Some(from)
    else FirstExact(admissions, query, from + 1)
  }

  /** The first index at or after `from` whose record the token matches
      (`findIndex` with the fallback test). */
  function FirstFallback(admissions: seq<Admission>, token: string, from: nat): (r: Option<nat>)
    requires from <= |admissions|
    ensures r.Some? ==> from <= r.value < |admissions| && FallbackMatch(admissions[r.value], token)
    ensures r.Some? ==> forall j | from <= j < r.value :: !FallbackMatch(admissions[j], token)
    ensures r.None? ==> forall j | from <= j < |admissions| :: !FallbackMatch(admissions[j], token)
    decreases |admissions| - from
  {
    if from == |admissions| then None
    else if FallbackMatch(admissions[from], token) then Some(from)
    else FirstFallback(admissions, token, from + 1)
  }

  /** The record a query selects: the first exact match in list order,
      else the first record the extracted token matches. */
  function Lookup(admissions: seq<Admission>, text: string): Option<Admission> {
    var query := Trim(text);
    match FirstExact(admissions, query, 0)
    case Some(i) => Some(admissions[i])
    case None =>
      match FirstFallback(admissions, SearchToken(query), 0)
      case Some(i) => Some(admissions[i])
      case None => None
  }

  /** An exact match wins over any substring match, and the first exact
      match in list order is the one selected. */
  lemma LookupExactFirst(admissions: seq<Admission>, text: string, i: nat)
    requires i < |admissions| && ExactMatch(admissions[i], Trim(text))
    requires forall j | 0 <= j < i :: !ExactMatch(admissions[j], Trim(text))
    ensures Lookup(admissions, text) == Some(admissions[i])
  {
    var r := FirstExact(admissions, Trim(text), 0);
    assert r.Some?;
    assert r.value == i;
  }

  /** Without an exact match the first token match in list order is selected. */
  lemma LookupFallbackFirst(admissions: seq<Admission>, text: string, i: nat)
    requires forall j | 0 <= j < |admissions| :: !ExactMatch(admissions[j], Trim(text))
    requires i < |admissions| && FallbackMatch(admissions[i], SearchToken(Trim(text)))
    requires forall j | 0 <= j < i :: !FallbackMatch(admissions[j], SearchToken(Trim(text)))
    ensures Lookup(admissions, text) == Some(admissions[i])
  {
    var query := Trim(text);
    var e := FirstExact(admissions, query, 0);
    assert e.None?;
    var r := FirstFallback(admissions, SearchToken(query), 0);
    assert r.Some?;
    assert r.value == i;
  }

  /** Nothing is selected when neither test matches any record. */
  lemma LookupNone(admissions: seq<Admission>, text: string)
    ensures Lookup(admissions, text).None? <==>
      (forall j | 0 <= j < |admissions| :: !ExactMatch(admissions[j], Trim(text))) &&
      (forall j | 0 <= j < |admissions| :: !FallbackMatch(admissions[j], SearchToken(Trim(text))))
  {
    var query := Trim(text);
    var e := FirstExact(admissions, query, 0);
    if e.None? {
      var r := FirstFallback(admissions, SearchToken(query), 0);
    }
  }

  /** A lookup never invents a record. */
  lemma LookupFromList(admissions: seq<Admission>, text: string)
    ensures Lookup(admissions, text).Some? ==> Lookup(admissions, text).value in admissions
  {
    var query := Trim(text);
    var e := FirstExact(admissions, query, 0);
    if e.Some? {
      assert admissions[e.value] in admissions;
    } else {
      var r := FirstFallback(admissions, SearchToken(query), 0);
      if r.Some? {
        assert admissions[r.value] in admissions;
      }
    }
  }

  // ---------------------------------------------------------------------
  // Step 3 onwards: the reply and the comment log

  /** `comments_${appNumber || id}`: a falsy app number falls back to the
      id, and a missing id prints as `undefined`. */
  function CommentKey(a: Admission): string {
    "comments_" + (if Truthy(a.appNumber) then a.appNumber.value
                   else match a.id
                     case Some(n) => IntToString(n)
                     case None => "undefined")
  }

  /** `JSON.parse(localStorage.getItem(key) || '[]')`. */
  function StoredComments(store: CommentStore, key: string): seq<Comment> {
    if key in store then store[key] else []
  }

  /** The `comment:` prefix test, on the trimmed lowered input. */
  predicate HasCommentPrefix(text: string) {
    IsPrefix("comment:", ToLower(Trim(text)))
  }

  /** The `lookup` keyword test, on the trimmed lowered input. */
  predicate MentionsLookup(text: string) {
    Contains(ToLower(Trim(text)), "lookup")
  }

  /** The input is taken as a comment: it has the `comment:` prefix, or a
      record is selected and the input does not ask for a lookup. */
  predicate IsCommentTurn(text: string, selected: Option<Admission>) {
    HasCommentPrefix(text) || (selected.Some? && !MentionsLookup(text))
  }

  /** The comment text as line 103 computes it: the prefix test is made on
      the trimmed input, but the first eight characters are cut from the
      raw input. */
  function CommentTextAsWritten(text: string): string {
    if HasCommentPrefix(text) then Trim(if |text| >= 8 then text[8..] else "") else text
  }

  /** The comment text with the prefix cut from the trimmed input, so
      that what is cut is the `comment:` prefix itself. */
  function CommentText(text: string): string {
    if HasCommentPrefix(text) then Trim(Trim(text)[8..]) else text
  }

  /** Leading whitespace is invisible to the trim. */
  lemma {:induction false} TrimStartSkipsWhitespace(w: string, t: string)
    requires forall i | 0 <= i < |w| :: IsJsWhitespace(w[i])
    ensures TrimStart(w + t) == TrimStart(t)
    decreases |w|
  {
    if w != [] {
      assert (w + t)[1..] == w[1..] + t;
      TrimStartSkipsWhitespace(w[1..], t);
    } else {
      assert w + t == t;
    }
  }

  /** With the prefix cut from the trimmed input, whitespace typed before
      `comment:` does not change the stored text. */
  lemma CommentTextIgnoresLeadingWhitespace(w: string, t: string)
    requires forall i | 0 <= i < |w| :: IsJsWhitespace(w[i])
    requires HasCommentPrefix(t)
    ensures CommentText(w + t) == CommentText(t)
  {
    TrimStartSkipsWhitespace(w, t);
  }

  /** The two cuts differ only on input that starts with whitespace: when
      the first character is not whitespace, cutting eight characters from
      the raw input and from the trimmed input stores the same text. */
  lemma CommentTextAgreesWithoutLeadingSpace(text: string)
    requires text == [] || !IsJsWhitespace(text[0])
    ensures CommentTextAsWritten(text) == CommentText(text)
  {
    if HasCommentPrefix(text) {
      var t := Trim(text);
      assert |t| >= 8;
      assert TrimStart(text) == text;
      TrimEndShape(text);
      assert text[8..] == t[8..] + text[|t|..];
      TrimDropsBlank(t[8..], text[|t|..]);
    }
  }

  lemma TrimIgnoresOneSpace(t: string)
    ensures Trim(" " + t) == Trim(t)
  {
    var w := " ";
    assert IsJsWhitespace(w[0]);
    TrimStartSkipsWhitespace(w, t);
  }

  /** An input that starts with `comment:` (in any case) has the colon at index 7. */
  lemma ColonAtSeven(t: string)
    requires t != [] && !IsJsWhitespace(t[0]) && HasCommentPrefix(t)
    ensures |t| >= 8 && t[7] == ':'
  {
    var tt := Trim(t);
    assert TrimStart(t) == t;
    TrimEndShape(t);
    assert tt == t[..|tt|];
    var l := ToLower(tt);
    assert l[..8] == "comment:";
    assert l[7] == ':';
    assert LowerChar(tt[7]) == ':';
  }

  /** A text starting with a colon still starts with it after trimming. */
  lemma TrimKeepsColon(x: string)
    requires x != [] && x[0] == ':'
    ensures Trim(x) != [] && Trim(x)[0] == ':'
  {
    assert TrimStart(x) == x;
    TrimEndShape(x);
    var r := TrimEnd(x);
    assert r == x[..|r|];
  }

  /** One space before `comment:` makes line 103 cut one character too
      few: the stored text then begins with the prefix's colon, while the
      trimmed cut stores what it stores without the space. */
  lemma CommentTextAsWrittenKeepsColon(t: string)
    requires t != [] && !IsJsWhitespace(t[0]) && HasCommentPrefix(t)
    ensures HasCommentPrefix(" " + t)
    ensures var c := CommentTextAsWritten(" " + t); c != [] && c[0] == ':'
    ensures CommentText(" " + t) == CommentText(t)
  {
    TrimIgnoresOneSpace(t);
    ColonAtSeven(t);
    var rest := (" " + t)[8..];
    assert rest == t[7..];
    TrimKeepsColon(rest);
  }

  /** The new session state and the reply after one non-blank input. */
  datatype Turn = Turn(selected: Option<Admission>, store: CommentStore, reply: Reply)

  /** `processCommand`: a found record is selected and shown with its
      comments; otherwise a `comment:` input, or any input without
      `lookup` while a record is selected, is a comment (refused when
      nothing is selected); anything else is "not found". The comment text
      stored is `CommentText`, the prefix cut from the trimmed input; it
      agrees with the cut as written whenever the input does not start
      with whitespace (`CommentTextAgreesWithoutLeadingSpace`). */
  function Respond(admissions: seq<Admission>, selected: Option<Admission>, store: CommentStore,
                   text: string, author: string, date: string): Turn
  {
    match Lookup(admissions, text)
    case Some(s) => Turn(Some(s), store, Details(s, StoredComments(store, CommentKey(s))))
    case None =>
      if IsCommentTurn(text, selected) then
        if selected.None? then Turn(selected, store, LookUpFirst)
        else
          var c := CommentText(text);
          var key := CommentKey(selected.value);
          Turn(selected, store[key := StoredComments(store, key) + [Comment(c, author, date)]],
               CommentSaved(selected.value.studentName, c))
      else Turn(selected, store, NotFound(text))
  }

  /** Lookup takes priority over commenting: a found record is selected
      and nothing is stored, even for a `comment:` input. */
  lemma LookupTakesPriority(admissions: seq<Admission>, selected: Option<Admission>,
                            store: CommentStore, text: string, author: string, date: string)
    requires Lookup(admissions, text).Some?
    ensures var t := Respond(admissions, selected, store, text, author, date);
      t.selected == Lookup(admissions, text) && t.store == store
      && t.reply == Details(t.selected.value, StoredComments(store, CommentKey(t.selected.value)))
  {
  }

  /** A `comment:` input with nothing found and nothing selected stores
      nothing and asks for a lookup first. */
  lemma CommentNeedsSelection(admissions: seq<Admission>, store: CommentStore,
                              text: string, author: string, date: string)
    requires Lookup(admissions, text).None? && HasCommentPrefix(text)
    ensures Respond(admissions, None, store, text, author, date) == Turn(None, store, LookUpFirst)
  {
  }

  /** A comment for the selected record grows its list by exactly one entry
      at the end and leaves every other list alone. */
  lemma CommentAppended(admissions: seq<Admission>, selected: Option<Admission>,
                        store: CommentStore, text: string, author: string, date: string)
    requires Lookup(admissions, text).None? && selected.Some?
    requires HasCommentPrefix(text) || !MentionsLookup(text)
    ensures var t := Respond(admissions, selected, store, text, author, date);
      var key := CommentKey(selected.value);
      && t.selected == selected
      && StoredComments(t.store, key) ==
         StoredComments(store, key) + [Comment(CommentText(text), author, date)]
      && (forall k | k != key :: StoredComments(t.store, k) == StoredComments(store, k))
      && t.reply == CommentSaved(selected.value.studentName, CommentText(text))
  {
  }

  /** No match, no prefix, and no selection or an explicit `lookup`: the
      reply names the input and nothing changes. */
  lemma NotFoundLeavesState(admissions: seq<Admission>, selected: Option<Admission>,
                            store: CommentStore, text: string, author: string, date: string)
    requires Lookup(admissions, text).None? && !HasCommentPrefix(text)
    requires selected.None? || MentionsLookup(text)
    ensures Respond(admissions, selected, store, text, author, date) ==
      Turn(selected, store, NotFound(text))
  {
  }

  /** Comments are append-only: every stored list is a prefix of the list
      stored after any turn. */
  lemma CommentsAppendOnly(admissions: seq<Admission>, selected: Option<Admission>,
                           store: CommentStore, text: string, author: string, date: string, key: string)
    ensures var t := Respond(admissions, selected, store, text, author, date);
      var before := StoredComments(store, key);
      var after := StoredComments(t.store, key);
      |before| <= |after| && after[..|before|] == before
  {
  }

  /** The selection only ever moves to a record of the list. */
  lemma SelectionFromList(admissions: seq<Admission>, selected: Option<Admission>,
                          store: CommentStore, text: string, author: string, date: string)
    ensures var t := Respond(admissions, selected, store, text, author, date);
      t.selected == selected || (t.selected.Some? && t.selected.value in admissions)
  {
    var l := Lookup(admissions, text);
    LookupFromList(admissions, text);
    if l.Some? {
      LookupTakesPriority(admissions, selected, store, text, author, date);
    } else {
      assert Respond(admissions, selected, store, text, author, date).selected == selected;
    }
  }

  /** One counselor's chat session. `admissions` is read from storage when
      the component mounts and is not re-read afterwards. */
  class CounselorSession {
    const username: string
    var admissions: seq<Admission>
    var selected: Option<Admission>
    var store: CommentStore
    var messages: seq<Message>

    constructor (storage: seq<Admission>, comments: CommentStore, user: string)
      ensures username == user && admissions == storage && store == comments
      ensures selected == None && messages == [FromBot(Greeting)]
    {
      username := user;
      admissions := storage;
      store := comments;
      selected := None;
      messages := [FromBot(Greeting)];
    }

    /** `handleSend`: a blank input is ignored; otherwise the input is
        echoed and processed. The bot's 500 ms delay is not modelled. */
    method HandleSend(input: string, date: string)
      modifies this
      ensures admissions == old(admissions)
      ensures Trim(input) == "" ==>
        selected == old(selected) && store == old(store) && messages == old(messages)
      ensures Trim(input) != "" ==>
        var t := Respond(old(admissions), old(selected), old(store), input, username, date);
        selected == t.selected && store == t.store
        && messages == old(messages) + [FromUser(input), FromBot(t.reply)]
    {
      if Trim(input) == "" {
        return;
      }
      messages := messages + [FromUser(input)];
      ProcessCommand(input, date);
    }

    /** `processCommand`, branch by branch as the component runs it, with
        the comment text cut from the trimmed input as `Respond` has it. */
    method ProcessCommand(text: string, date: string)
      modifies this
      ensures admissions == old(admissions)
      ensures var t := Respond(old(admissions), old(selected), old(store), text, username, date);
        selected == t.selected && store == t.store && messages == old(messages) + [FromBot(t.reply)]
    {
      // both `find` passes: exact match, then the extracted token
      var student := Lookup(admissions, text);
      if student.Some? {
        selected := student;
        var comments := StoredComments(store, CommentKey(student.value));
        messages := messages + [FromBot(Details(student.value, comments))];
      } else if HasCommentPrefix(text) || (selected.Some? && !MentionsLookup(text)) {
        if selected.None? {
          messages := messages + [FromBot(LookUpFirst)];
          return;
        }
        var commentText := CommentText(text);
        var studentKey := CommentKey(selected.value);
        var existing := StoredComments(store, studentKey);
        store := store[studentKey := existing + [Comment(commentText, username, date)]];
        messages := messages + [FromBot(CommentSaved(selected.value.studentName, commentText))];
      } else {
        messages := messages + [FromBot(NotFound(text))];
      }
    }
  }
}
