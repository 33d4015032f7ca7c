/** The two form schemas. `ThreadValidation` is an object schema with a
    `thread` field (a string that is non-empty and at least 3 long, with the
    custom message "Minimun 3 characters" on the second rule) and an
    `accountId` field (any string). `CommentValidation` has the `thread`
    field alone. Parsing either one is a function of its input: it returns
    the typed value, holding only the schema's fields, or the list of
    issues, one per broken rule, in the order the rules are checked. */
module Validations {
  import opened Wrappers
  import JsStrings

  /** The JavaScript value handed to a schema. A number carries no payload,
      since no rule here reads its value; only whether it is `NaN` matters,
      because the type check reports `NaN` as type `nan`, not `number`. */
  datatype JsValue =
    | JsString(str: string)
    | JsNumber
    | JsNaN
    | JsBoolean(b: bool)
    | JsNull
    | JsArray(items: seq<JsValue>)
    | JsObject(fields: map<string, JsValue>)

  /** The type a schema finds at a position; `TUndefined` for a missing field. */
  datatype ValueType = TUndefined | TString | TNumber | TNaN | TBoolean | TNull | TArray | TObject

  function TypeOf(v: Option<JsValue>): ValueType {
    match v
    case None => TUndefined
    case Some(JsString(_)) => TString
    case Some(JsNumber) => TNumber
    case Some(JsNaN) => TNaN
    case Some(JsBoolean(_)) => TBoolean
    case Some(JsNull) => TNull
    case Some(JsArray(_)) => TArray
    case Some(JsObject(_)) => TObject
  }

  datatype IssueCode =
    | InvalidType(expected: ValueType, received: ValueType)
    | TooSmall(minimum: nat)

  /** One broken rule: where (the field path, empty for the whole input),
      which rule, and the schema's own message if it gave one (otherwise the
      library's default message is shown). */
  datatype Issue = Issue(path: seq<string>, code: IssueCode, message: Option<string>)

  /** A `.min(n, { message })` rule on a string; `.nonempty()` is `.min(1)`. */
  datatype MinLength = MinLength(minimum: nat, message: Option<string>)

  const ThreadField := "thread"
  const AccountIdField := "accountId"
  const MinThreadMessage := "Minimun 3 characters"

  /** The `thread` field's rules: `.nonempty()` then `.min(3, ...)`. */
  const ThreadRules: seq<MinLength> := [MinLength(1, None), MinLength(3, Some(MinThreadMessage))]

  /** The issues of the length rules that `s` breaks. Every rule is checked,
      so one string can break several. */
  function LengthIssues(path: seq<string>, s: string, rules: seq<MinLength>): seq<Issue> {
    if rules == [] then []
    else
      (if JsStrings.Utf16Length(s) < rules[0].minimum
       then [Issue(path, TooSmall(rules[0].minimum), rules[0].message)]
       else [])
      + LengthIssues(path, s, rules[1..])
  }

  /** `z.string()` followed by `rules`, applied to the value at `path`. */
  function StringIssues(path: seq<string>, v: Option<JsValue>, rules: seq<MinLength>): seq<Issue> {
    match v
    case Some(JsString(s)) => LengthIssues(path, s, rules)
    case _ => [Issue(path, InvalidType(TString, TypeOf(v)), None)]
  }

  function Field(fields: map<string, JsValue>, key: string): Option<JsValue> {
    if key in fields then Some(fields[key]) else None
  }

  function ThreadIssues(fields: map<string, JsValue>): seq<Issue> {
    StringIssues([ThreadField], Field(fields, ThreadField), ThreadRules)
  }

  function AccountIdIssues(fields: map<string, JsValue>): seq<Issue> {
    StringIssues([AccountIdField], Field(fields, AccountIdField), [])
  }

  function NotAnObject(input: JsValue): seq<Issue> {
    [Issue([], InvalidType(TObject, TypeOf(Some(input))), None)]
  }

  datatype ThreadData = ThreadData(thread: string, accountId: string)
  datatype CommentData = CommentData(thread: string)

  /** `ThreadValidation.safeParse(input)`. */
  function ParseThread(input: JsValue): Result<ThreadData, seq<Issue>> {
    match input
    case JsObject(fields) =>
      var issues := ThreadIssues(fields) + AccountIdIssues(fields);
      if issues == [] then
        Success(ThreadData(fields[ThreadField].str, fields[AccountIdField].str))
      else
        Failure(issues)
    case _ => Failure(NotAnObject(input))
  }

  /** `CommentValidation.safeParse(input)`. */
  function ParseComment(input: JsValue): Result<CommentData, seq<Issue>> {
    match input
    case JsObject(fields) =>
      var issues := ThreadIssues(fields);
      if issues == [] then Success(CommentData(fields[ThreadField].str)) else Failure(issues)
    case _ => Failure(NotAnObject(input))
  }

  // ---------------------------------------------------------------------
  // What the rules accept, stated without the issue lists

  /** The `thread` rule: a string of length at least 3. */
  predicate ThreadRuleAccepts(v: Option<JsValue>) {
    v.Some? && v.value.JsString? && JsStrings.Utf16Length(v.value.str) >= 3
  }

  /** The `accountId` rule: any string, the empty one included. */
  predicate AccountIdRuleAccepts(v: Option<JsValue>) {
    v.Some? && v.value.JsString?
  }

  /** The two `thread` length rules, unfolded. */
  lemma ThreadLengthIssues(path: seq<string>, s: string)
    ensures LengthIssues(path, s, ThreadRules) ==
      (if JsStrings.Utf16Length(s) < 1 then [Issue(path, TooSmall(1), None)] else [])
      + (if JsStrings.Utf16Length(s) < 3 then [Issue(path, TooSmall(3), Some(MinThreadMessage))] else [])
  {
    var rest := ThreadRules[1..];
    assert rest == [MinLength(3, Some(MinThreadMessage))];
    assert rest[1..] == [];
    assert LengthIssues(path, s, rest[1..]) == [];
  }

  lemma ThreadIssuesEmptyIff(fields: map<string, JsValue>)
    ensures ThreadIssues(fields) == [] <==> ThreadRuleAccepts(Field(fields, ThreadField))
  {
    var v := Field(fields, ThreadField);
    if v.Some? && v.value.JsString? {
      ThreadLengthIssues([ThreadField], v.value.str);
    }
  }

  lemma AccountIdIssuesEmptyIff(fields: map<string, JsValue>)
    ensures AccountIdIssues(fields) == [] <==> AccountIdRuleAccepts(Field(fields, AccountIdField))
  {
  }

  /** `ThreadValidation` accepts exactly the objects whose `thread` is a string
      of length at least 3 and whose `accountId` is a string, and then returns
      those two strings unchanged. */
  lemma ThreadValidationAccepts(input: JsValue)
    ensures ParseThread(input).Success? <==>
      input.JsObject?
      && ThreadRuleAccepts(Field(input.fields, ThreadField))
      && AccountIdRuleAccepts(Field(input.fields, AccountIdField))
    ensures ParseThread(input).Success? ==>
      ParseThread(input).value == ThreadData(input.fields[ThreadField].str, input.fields[AccountIdField].str)
  {
    if input.JsObject? {
      ThreadIssuesEmptyIff(input.fields);
      AccountIdIssuesEmptyIff(input.fields);
    }
  }

  /** An empty `thread` breaks both length rules: `nonempty` first, then the
      minimum of 3 with its message. */
  lemma EmptyThreadRejected(fields: map<string, JsValue>)
    requires Field(fields, ThreadField) == Some(JsString(""))
    ensures ParseThread(JsObject(fields)).Failure?
    ensures ParseComment(JsObject(fields)).Failure?
    ensures ThreadIssues(fields) ==
      [Issue([ThreadField], TooSmall(1), None), Issue([ThreadField], TooSmall(3), Some(MinThreadMessage))]
  {
    ThreadLengthIssues([ThreadField], fields[ThreadField].str);
  }

  /** A `thread` of length 1 or 2 breaks only the minimum-3 rule, and the
      issue carries the message "Minimun 3 characters". */
  lemma ShortThreadRejected(fields: map<string, JsValue>, s: string)
    requires Field(fields, ThreadField) == Some(JsString(s))
    requires 1 <= JsStrings.Utf16Length(s) <= 2
    ensures ParseThread(JsObject(fields)).Failure?
    ensures ParseComment(JsObject(fields)).Failure?
    ensures ThreadIssues(fields) == [Issue([ThreadField], TooSmall(3), Some(MinThreadMessage))]
    ensures ParseComment(JsObject(fields)).error[0].message == Some("Minimun 3 characters")
  {
    ThreadLengthIssues([ThreadField], fields[ThreadField].str);
  }

  /** `accountId` has no length rule: an empty account id is accepted
      whenever the `thread` is. */
  lemma EmptyAccountIdAccepted(fields: map<string, JsValue>)
    requires ThreadRuleAccepts(Field(fields, ThreadField))
    requires Field(fields, AccountIdField) == Some(JsString(""))
    ensures ParseThread(JsObject(fields)) == Success(ThreadData(fields[ThreadField].str, ""))
  {
    ThreadValidationAccepts(JsObject(fields));
  }

  /** `CommentValidation` checks `thread` alone, with the very rule of
      `ThreadValidation`: it accepts exactly when that rule does, it reports
      the same `thread` issues, and it never looks at `accountId`. */
  lemma CommentValidationIsThreadRule(fields: map<string, JsValue>)
    ensures ParseComment(JsObject(fields)).Success? <==> ThreadRuleAccepts(Field(fields, ThreadField))
    ensures ParseComment(JsObject(fields)).Success? ==>
      ParseComment(JsObject(fields)).value.thread == fields[ThreadField].str
    ensures ParseComment(JsObject(fields)).Failure? ==>
      ParseComment(JsObject(fields)).error == ThreadIssues(fields)
    ensures ParseThread(JsObject(fields)).Success? ==>
      ParseComment(JsObject(fields)) == Success(CommentData(ParseThread(JsObject(fields)).value.thread))
  {
    ThreadIssuesEmptyIff(fields);
    ThreadValidationAccepts(JsObject(fields));
  }

  /** Fields other than the schema's are ignored: parsing an object gives
      the same result as parsing it with its unknown keys removed. */
  lemma UnknownKeysIgnored(fields: map<string, JsValue>)
    ensures ParseThread(JsObject(fields)) ==
      ParseThread(JsObject(map k | k in fields && (k == ThreadField || k == AccountIdField) :: fields[k]))
    ensures ParseComment(JsObject(fields)) ==
      ParseComment(JsObject(map k | k in fields && k == ThreadField :: fields[k]))
  {
  }

  /** An input that is not an object is rejected with a single type issue on
      the whole input, by both schemas. */
  lemma NonObjectRejected(input: JsValue)
    requires !input.JsObject?
    ensures ParseThread(input) == Failure([Issue([], InvalidType(TObject, TypeOf(Some(input))), None)])
    ensures ParseComment(input) == Failure([Issue([], InvalidType(TObject, TypeOf(Some(input))), None)])
  {
  }

  /** A missing or non-string `thread` is a type issue on that field, and the
      length rules are not run on it. */
  lemma NonStringThreadRejected(fields: map<string, JsValue>)
    requires !(Field(fields, ThreadField).Some? && Field(fields, ThreadField).value.JsString?)
    ensures ThreadIssues(fields) ==
      [Issue([ThreadField], InvalidType(TString, TypeOf(Field(fields, ThreadField))), None)]
    ensures ParseThread(JsObject(fields)).Failure? && ParseComment(JsObject(fields)).Failure?
  {
  }

  /** A `NaN` is reported as received type `nan`, not `number`: as the
      `thread` field and as the whole input. */
  lemma NaNReportedAsNaN()
    ensures ParseComment(JsObject(map[ThreadField := JsNaN])) ==
      Failure([Issue([ThreadField], InvalidType(TString, TNaN), None)])
    ensures ParseThread(JsNaN) == Failure([Issue([], InvalidType(TObject, TNaN), None)])
  {
    NonStringThreadRejected(map[ThreadField := JsNaN]);
    assert Field(map[ThreadField := JsNaN], ThreadField) == Some(JsNaN);
  }

  /** A 2-character comment, "hi", is rejected with the single minimum-3
      issue and its message. */
  lemma ShortCommentExample()
    ensures ParseComment(JsObject(map[ThreadField := JsString("hi")])) ==
      Failure([Issue([ThreadField], TooSmall(3), Some("Minimun 3 characters"))])
  {
    var short := map[ThreadField := JsString("hi")];
    assert Field(short, ThreadField) == Some(JsString("hi"));
    assert JsStrings.Utf16Length("hi") == 2 by {
      assert "hi"[1..] == "i";
      assert "i"[1..] == "";
    }
    ThreadLengthIssues([ThreadField], "hi");
    assert ThreadIssues(short) == [Issue([ThreadField], TooSmall(3), Some(MinThreadMessage))];
  }

  /** An 8-character comment, "hi there", is accepted as it is. */
  lemma LongCommentExample()
    ensures ParseComment(JsObject(map[ThreadField := JsString("hi there")])) == Success(CommentData("hi there"))
  {
    JsStrings.Utf16LengthBounds("hi there");
    ThreadLengthIssues([ThreadField], "hi there");
  }
}
