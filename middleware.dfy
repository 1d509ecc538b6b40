/** The `middleware` class of index.js: validation of a security.txt
    options record, rendering of the policy text, and the request handler
    that `setup` returns. */
module Middleware {
  import opened JsValues
  import opened JsStrings

  /** The checks of `validatePolicyFields`, each named after what it
      rejects, in the order they run. */
  datatype Guard =
    | NotAnObject
    | NullOptions
    | MissingContact
    | EncryptionNotString
    | EncryptionNotHttps
    | AcknowledgementNotString
    | SignatureNotString
    | PolicyNotString
    | HiringNotString

  /** Why a call throws: a rejected guard, or the `TypeError` that
      `forEach` raises on a `contact` that is a non-array object. */
  datatype Error = Rejected(guard: Guard) | NotIterable

  /** A value, or the error the call throws instead. */
  datatype Result<T> = Ok(value: T) | Fail(error: Error)

  /** The position of a guard in the validation chain. */
  function Rank(g: Guard): (r: nat)
    ensures r < 9
  {
    match g
    case NotAnObject => 0
    case NullOptions => 1
    case MissingContact => 2
    case EncryptionNotString => 3
    case EncryptionNotHttps => 4
    case AcknowledgementNotString => 5
    case SignatureNotString => 6
    case PolicyNotString => 7
    case HiringNotString => 8
  }

  /** A URI whose scheme is plain HTTP, in any letter case. */
  predicate IsHttpUri(s: string)
  {
    |s| >= 7 && forall i :: 0 <= i < 7 ==> LowerChar(s[i]) == "http://"[i]
  }

  /** An optional field that is set (truthy) to something other than a
      string. */
  predicate SetButNotString(v: Value)
  {
    Truthy(v) && !v.Str?
  }

  /** What each guard rejects, stated on its own, independently of the
      guards before it. */
  predicate Violates(options: Value, g: Guard)
  {
    match g
    case NotAnObject => !IsObjectType(options)
    case NullOptions => options.Null?
    case MissingContact => !Truthy(Prop(options, "contact"))
    case EncryptionNotString => SetButNotString(Prop(options, "encryption"))
    case EncryptionNotHttps =>
      Prop(options, "encryption").Str? && IsHttpUri(Prop(options, "encryption").s)
    case AcknowledgementNotString => SetButNotString(Prop(options, "acknowledgement"))
    case SignatureNotString => SetButNotString(Prop(options, "signature"))
    case PolicyNotString => SetButNotString(Prop(options, "policy"))
    case HiringNotString => SetButNotString(Prop(options, "hiring"))
  }

  /** `encryption.toLowerCase().substr(0, 7) === 'http://'` holds exactly
      of the URIs with an HTTP scheme. */
  lemma HttpPrefixTest(s: string)
    ensures Prefix(ToLower(s), 7) == "http://" <==> IsHttpUri(s)
  {
    if IsHttpUri(s) {
      assert Prefix(ToLower(s), 7) == "http://";
    }
  }

  /** `validatePolicyFields`: returns true when no guard rejects the
      options, and otherwise throws the error of the FIRST guard that
      does. */
  function ValidatePolicyFields(options: Value): (r: Result<bool>)
    ensures r.Ok? ==> r.value
    ensures r.Fail? ==> r.error.Rejected? && Violates(options, r.error.guard)
    ensures r.Ok? ==> forall g :: !Violates(options, g)
    ensures r.Fail? ==> forall g :: Rank(g) < Rank(r.error.guard) ==> !Violates(options, g)
  {
    if !IsObjectType(options) then Fail(Rejected(NotAnObject))
    // reading `.contact` of null throws before the contact check can run
    else if options.Null? then Fail(Rejected(NullOptions))
    else if !Truthy(Prop(options, "contact")) then Fail(Rejected(MissingContact))
    else
      var encryption := Prop(options, "encryption");
      if Truthy(encryption) && !encryption.Str? then Fail(Rejected(EncryptionNotString))
      else if Truthy(encryption) && (HttpPrefixTest(encryption.s); Prefix(ToLower(encryption.s), 7) == "http://") then
        Fail(Rejected(EncryptionNotHttps))
      else if SetButNotString(Prop(options, "acknowledgement")) then Fail(Rejected(AcknowledgementNotString))
      else if SetButNotString(Prop(options, "signature")) then Fail(Rejected(SignatureNotString))
      else if SetButNotString(Prop(options, "policy")) then Fail(Rejected(PolicyNotString))
      else if SetButNotString(Prop(options, "hiring")) then Fail(Rejected(HiringNotString))
      else Ok(true)
  }

  /** One rendered line of the policy: `<field>: <value>`. */
  datatype Line = Line(field: string, value: string)

  function LineText(l: Line): string
  {
    l.field + ": " + l.value
  }

  /** The text of each line, in order. */
  function Texts(ls: seq<Line>): seq<string>
  {
    seq(|ls|, i requires 0 <= i < |ls| => LineText(ls[i]))
  }

  /** Pushing a line pushes its text. */
  lemma TextsPush(ls: seq<Line>, l: Line)
    ensures Texts(ls + [l]) == Texts(ls) + [LineText(l)]
  {
  }

  /** The texts of two runs of lines, one after the other. */
  lemma TextsAppend(a: seq<Line>, b: seq<Line>)
    ensures Texts(a + b) == Texts(a) + Texts(b)
  {
  }

  /** The entry a truthy optional field adds to the directive table. */
  function OptionalEntry(field: string, v: Value): seq<(string, Value)>
  {
    if Truthy(v) then [(field, v)] else []
  }

  /** The optional option keys, each with the directive it is rendered
      as, in the order `formatSecurityPolicy` adds them to its table. */
  const OptionalDirectives: seq<(string, string)> := [
    ("encryption", "Encryption"),
    ("acknowledgement", "Acknowledgement"),
    ("signature", "Signature"),
    ("policy", "Policy"),
    ("hiring", "Hiring")
  ]

  /** The table's first entry: the contact, a string wrapped in a
      one-element array. */
  function ContactEntry(options: Value): (string, Value)
  {
    var contact := Prop(options, "contact");
    ("Contact", if contact.Str? then Arr([contact]) else contact)
  }

  /** The table once the contact and the first `n` optional directives
      have been considered: each of those that is set (truthy) appended,
      in order. */
  function TableThrough(options: Value, n: nat): seq<(string, Value)>
    requires n <= |OptionalDirectives|
  {
    if n == 0 then [ContactEntry(options)]
    else
      var (key, field) := OptionalDirectives[n - 1];
      TableThrough(options, n - 1) + OptionalEntry(field, Prop(options, key))
  }

  /** The directive table `policySetting` as `formatSecurityPolicy` fills
      it, in insertion order (which is the order `Object.entries` lists
      it in). */
  function PolicySetting(options: Value): seq<(string, Value)>
  {
    TableThrough(options, |OptionalDirectives|)
  }

  /** The lines one table entry renders to: one per element when the
      value is an array, one for any other non-object value, and the
      `forEach` TypeError for `null` or a plain object. */
  function EntryLines(field: string, value: Value): Result<seq<Line>>
  {
    if IsObjectType(value) then
      if value.Arr? then
        Ok(seq(|value.elems|, i requires 0 <= i < |value.elems| => Line(field, ToString(value.elems[i]))))
      else Fail(NotIterable)
    else Ok([Line(field, ToString(value))])
  }

  /** The lines of a whole table, entry after entry; the first entry that
      throws decides the error. */
  function TableLines(t: seq<(string, Value)>): Result<seq<Line>>
  {
    if t == [] then Ok([])
    else
      match TableLines(t[..|t| - 1])
      case Fail(e) => Fail(e)
      case Ok(front) =>
        match EntryLines(t[|t| - 1].0, t[|t| - 1].1)
        case Fail(e) => Fail(e)
        case Ok(last) => Ok(front + last)
  }

  /** What `formatSecurityPolicy` returns or throws: validation first,
      then the table's lines joined by '\n'. */
  function FormatPolicy(options: Value): Result<string>
  {
    match ValidatePolicyFields(options)
    case Fail(e) => Fail(e)
    case Ok(_) =>
      match TableLines(PolicySetting(options))
      case Fail(e) => Fail(e)
      case Ok(lines) => Ok(Join(Texts(lines), "\n"))
  }

  /** Once a prefix of the table has thrown, the whole table throws the
      same error. */
  lemma {:induction false} TableLinesFailureSticks(t: seq<(string, Value)>, i: nat)
    requires i <= |t| && TableLines(t[..i]).Fail?
    ensures TableLines(t) == TableLines(t[..i])
    decreases |t| - i
  {
    if i < |t| {
      assert t[..i + 1][..i] == t[..i];
      TableLinesFailureSticks(t, i + 1);
    } else {
      assert t[..i] == t;
    }
  }

  /** Rendering one more entry of a table that has rendered so far: the
      entry's lines follow, or its error is the table's. */
  lemma TableLinesPush(t: seq<(string, Value)>, i: nat)
    requires i < |t| && TableLines(t[..i]).Ok?
    ensures EntryLines(t[i].0, t[i].1).Fail? ==> TableLines(t[..i + 1]) == Fail(EntryLines(t[i].0, t[i].1).error)
    ensures EntryLines(t[i].0, t[i].1).Ok? ==>
      TableLines(t[..i + 1]) == Ok(TableLines(t[..i]).value + EntryLines(t[i].0, t[i].1).value)
  {
    assert t[..i + 1][..i] == t[..i];
  }

  /** The first half of `formatSecurityPolicy`: fills the directive
      table field by field, in the fixed directive order. */
  method FillPolicySetting(options: Value) returns (policySetting: seq<(string, Value)>)
    ensures policySetting == PolicySetting(options)
  {
    policySetting := [];
    var contact := Prop(options, "contact");
    if contact.Str? {
      policySetting := policySetting + [("Contact", Arr([contact]))];
    } else {
      policySetting := policySetting + [("Contact", contact)];
    }
    assert policySetting == TableThrough(options, 0);
    var encryption := Prop(options, "encryption");
    if Truthy(encryption) {
      policySetting := policySetting + [("Encryption", encryption)];
    }
    assert policySetting == TableThrough(options, 1);
    var acknowledgement := Prop(options, "acknowledgement");
    if Truthy(acknowledgement) {
      policySetting := policySetting + [("Acknowledgement", acknowledgement)];
    }
    assert policySetting == TableThrough(options, 2);
    var signature := Prop(options, "signature");
    if Truthy(signature) {
      policySetting := policySetting + [("Signature", signature)];
    }
    assert policySetting == TableThrough(options, 3);
    var policy := Prop(options, "policy");
    if Truthy(policy) {
      policySetting := policySetting + [("Policy", policy)];
    }
    assert policySetting == TableThrough(options, 4);
    var hiring := Prop(options, "hiring");
    if Truthy(hiring) {
      policySetting := policySetting + [("Hiring", hiring)];
    }
  }

  /** `value.forEach(valueOption => tmpPolicyArray.push(...))`: pushes one
      `field: element` string per element of the array, in order. */
  method PushElements(tmpPolicyArray: seq<string>, field: string, value: Value) returns (pushed: seq<string>)
    requires value.Arr?
    ensures pushed == tmpPolicyArray + Texts(EntryLines(field, value).value)
  {
    ghost var entry := EntryLines(field, value).value;
    pushed := tmpPolicyArray;
    for j := 0 to |value.elems|
      invariant pushed == tmpPolicyArray + Texts(entry[..j])
    {
      assert entry[..j + 1] == entry[..j] + [entry[j]];
      TextsPush(entry[..j], entry[j]);
      pushed := pushed + [field + ": " + ToString(value.elems[j])];
    }
    assert entry[..|value.elems|] == entry;
  }

  /** `formatSecurityPolicy`: validates, fills the directive table field by
      field, pushes one `Field: value` string per array element or scalar,
      and joins them with '\n'. */
  method FormatSecurityPolicy(options: Value) returns (r: Result<string>)
    ensures r == FormatPolicy(options)
  {
    var valid := ValidatePolicyFields(options);
    if valid.Fail? {
      return Fail(valid.error);
    }

    var policySetting := FillPolicySetting(options);

    var tmpPolicyArray: seq<string> := [];
    for i := 0 to |policySetting|
      invariant TableLines(policySetting[..i]).Ok?
      invariant tmpPolicyArray == Texts(TableLines(policySetting[..i]).value)
    {
      TableLinesPush(policySetting, i);
      var (field, value) := policySetting[i];
      if IsObjectType(value) {
        if !value.Arr? {
          TableLinesFailureSticks(policySetting, i + 1);
          assert policySetting[..|policySetting|] == policySetting;
          return Fail(NotIterable);
        }
        TextsAppend(TableLines(policySetting[..i]).value, EntryLines(field, value).value);
        tmpPolicyArray := PushElements(tmpPolicyArray, field, value);
      } else {
        TextsPush(TableLines(policySetting[..i]).value, Line(field, ToString(value)));
        tmpPolicyArray := tmpPolicyArray + [field + ": " + ToString(value)];
      }
    }
    assert policySetting[..|policySetting|] == policySetting;

    return Ok(Join(tmpPolicyArray, "\n"));
  }

  /** An HTTP request as the handler sees it. */
  datatype Request = Request(verb: string, path: string)

  /** What the handler does with a request: answer it, or hand it on by
      calling `next`. */
  datatype Response = Serve(status: nat, contentType: string, body: string) | CallNext

  /** The handler `setup` returns, closed over the precomputed policy. */
  datatype Handler = Handler(securityPolicy: string)

  /** The two paths the handler answers on. */
  predicate IsPolicyPath(path: string)
  {
    path == "/security.txt" || path == "/.well-known/security.txt"
  }

  /** The spellings of GET in any letter case. */
  predicate IsGetInAnyCase(verb: string)
  {
    |verb| == 3
    && (verb[0] == 'g' || verb[0] == 'G')
    && (verb[1] == 'e' || verb[1] == 'E')
    && (verb[2] == 't' || verb[2] == 'T')
  }

  /** `req.method.toLowerCase() === 'get'` (the request's `verb` field)
      holds exactly of the spellings of GET in any letter case. */
  lemma {:induction false} LowerIsGet(verb: string)
    ensures ToLower(verb) == "get" <==> IsGetInAnyCase(verb)
  {
    if ToLower(verb) == "get" {
      assert LowerChar(verb[0]) == 'g' && LowerChar(verb[1]) == 'e' && LowerChar(verb[2]) == 't';
    }
    if IsGetInAnyCase(verb) {
      assert ToLower(verb) == "get";
    }
  }

  /** The handler: serves the policy as text/plain with status 200 to a
      GET (in any letter case) of one of the two policy paths, and calls
      `next` for every other request. */
  function Handle(h: Handler, req: Request): (r: Response)
    ensures r.Serve? <==> IsPolicyPath(req.path) && IsGetInAnyCase(req.verb)
    ensures r.Serve? ==> r.status == 200 && r.contentType == "text/plain" && r.body == h.securityPolicy
  {
    if IsPolicyPath(req.path) && (LowerIsGet(req.verb); ToLower(req.verb) == "get") then
      Serve(200, "text/plain", h.securityPolicy)
    else CallNext
  }

  /** `setup(options = {})`: an absent options argument defaults to the
      empty object. */
  function SetupArgument(options: Value): Value
  {
    if options.Undefined? then Obj(map[]) else options
  }

  /** `setup`: renders the policy once, eagerly, so that an invalid
      configuration throws here and never at request time; the handler
      holds the rendered text. */
  method Setup(options: Value) returns (r: Result<Handler>)
    ensures FormatPolicy(SetupArgument(options)).Fail? ==> r == Fail(FormatPolicy(SetupArgument(options)).error)
    ensures FormatPolicy(SetupArgument(options)).Ok? ==> r == Ok(Handler(FormatPolicy(SetupArgument(options)).value))
    ensures options.Undefined? ==> r == Fail(Rejected(MissingContact))
  {
    var securityPolicy := FormatSecurityPolicy(SetupArgument(options));
    match securityPolicy
    case Fail(e) => return Fail(e);
    case Ok(text) => return Ok(Handler(text));
  }
}
