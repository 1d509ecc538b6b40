/** What index.js promises about its output and its errors, proved of the
    model in module Middleware. */
module MiddlewareProperties {
  import opened JsValues
  import opened JsStrings
  import opened Middleware

  /** The directives in output order: Contact, then the optional ones in
      their table order. */
  const DirectiveOrder: seq<string> := [
    "Contact",
    OptionalDirectives[0].1,
    OptionalDirectives[1].1,
    OptionalDirectives[2].1,
    OptionalDirectives[3].1,
    OptionalDirectives[4].1
  ]

  /** The directive names are distinct: they differ in their first
      letters already. */
  lemma DirectiveOrderDistinct()
    ensures forall i, j :: 0 <= i < j < |DirectiveOrder| ==> DirectiveOrder[i] != DirectiveOrder[j]
  {
    var firsts := seq(|DirectiveOrder|, i requires 0 <= i < |DirectiveOrder| => DirectiveOrder[i][0]);
    assert firsts == "CEASPH";
    forall i, j | 0 <= i < j < |DirectiveOrder| ensures DirectiveOrder[i] != DirectiveOrder[j] {
      assert firsts[i] != firsts[j];
    }
  }

  /** No directive name holds a newline. */
  lemma DirectiveNamesOnOneLine(field: string)
    requires field in DirectiveOrder
    ensures '\n' !in field
  {
  }

  /** A position of `x` in `s` (its first occurrence). */
  function IndexOf(s: seq<string>, x: string): (r: nat)
    requires x in s
    ensures r < |s| && s[r] == x
  {
    if s[0] == x then 0 else 1 + IndexOf(s[1..], x)
  }

  /** The position of a directive name in the output order. */
  function DirectiveRank(field: string): (r: nat)
    requires field in DirectiveOrder
    ensures r < |DirectiveOrder| && DirectiveOrder[r] == field
  {
    IndexOf(DirectiveOrder, field)
  }

  /** Contact ranks first. */
  lemma ContactRanksFirst()
    ensures "Contact" in DirectiveOrder && DirectiveRank("Contact") == 0
  {
    RankOfPosition(0);
  }

  /** A directive's rank is its position in the output order. */
  lemma RankOfPosition(i: nat)
    requires i < |DirectiveOrder|
    ensures DirectiveRank(DirectiveOrder[i]) == i
  {
    DirectiveOrderDistinct();
  }

  /** The lines the contact renders to: a string gives one line holding
      it, an array one line per element in array order, any other set
      scalar one line holding its string form. */
  function ContactLines(contact: Value): seq<Line>
    requires !IsObjectType(contact) || contact.Arr?
  {
    match contact
    case Str(s) => [Line("Contact", s)]
    case Arr(elems) => seq(|elems|, i requires 0 <= i < |elems| => Line("Contact", ToString(elems[i])))
    case _ => [Line("Contact", ToString(contact))]
  }

  /** The lines of the first `n` optional directives of valid options: one
      `Field: value` line for each that is set, holding its string. */
  function FieldLines(options: Value, n: nat): seq<Line>
    requires ValidatePolicyFields(options).Ok?
    requires n <= |OptionalDirectives|
  {
    if n == 0 then []
    else
      var (key, field) := OptionalDirectives[n - 1];
      var v := Prop(options, key);
      FieldLines(options, n - 1) + (if Truthy(v) then [Line(field, v.s)] else [])
  }

  /** Every optional field that valid options set is a string. */
  lemma ValidFieldsAreStrings(options: Value, k: nat)
    requires ValidatePolicyFields(options).Ok?
    requires k < |OptionalDirectives|
    ensures Truthy(Prop(options, OptionalDirectives[k].0)) ==> Prop(options, OptionalDirectives[k].0).Str?
  {
    assert !Violates(options, EncryptionNotString);
    assert !Violates(options, AcknowledgementNotString);
    assert !Violates(options, SignatureNotString);
    assert !Violates(options, PolicyNotString);
    assert !Violates(options, HiringNotString);
  }

  /** A one-entry table renders as its entry does. */
  lemma SingleEntryLines(field: string, v: Value)
    ensures TableLines([(field, v)]) == EntryLines(field, v)
  {
    var t := [(field, v)];
    assert t != [] && t[..|t| - 1] == [] && t[|t| - 1] == (field, v);
    assert TableLines(t[..|t| - 1]) == Ok([]);
    if EntryLines(field, v).Ok? {
      var none: seq<Line> := [];
      assert none + EntryLines(field, v).value == EntryLines(field, v).value;
    }
  }

  /** The contact's entry renders to the contact's lines. */
  lemma ContactEntryLines(options: Value)
    requires Truthy(Prop(options, "contact")) && !Prop(options, "contact").Obj?
    ensures EntryLines(ContactEntry(options).0, ContactEntry(options).1) == Ok(ContactLines(Prop(options, "contact")))
  {
    var contact := Prop(options, "contact");
    if contact.Str? {
      var lines := EntryLines("Contact", Arr([contact])).value;
      assert |lines| == 1 && lines[0] == Line("Contact", contact.s);
      assert lines == [Line("Contact", contact.s)] == ContactLines(contact);
      assert ContactEntry(options) == ("Contact", Arr([contact]));
    }
  }

  /** Rendering a table in two parts renders each part and concatenates. */
  lemma {:induction false} TableLinesAppend(a: seq<(string, Value)>, b: seq<(string, Value)>)
    requires TableLines(a).Ok? && TableLines(b).Ok?
    ensures TableLines(a + b) == Ok(TableLines(a).value + TableLines(b).value)
    decreases |b|
  {
    if b == [] {
      assert a + b == a;
      assert TableLines(b) == Ok([]);
      assert TableLines(a).value + [] == TableLines(a).value;
    } else {
      var b', x := b[..|b| - 1], b[|b| - 1];
      assert TableLines(b').Ok? && EntryLines(x.0, x.1).Ok?;
      assert TableLines(b).value == TableLines(b').value + EntryLines(x.0, x.1).value;
      assert (a + b)[..|a + b| - 1] == a + b';
      assert (a + b)[|a + b| - 1] == x;
      TableLinesAppend(a, b');
      assert TableLines(a).value + TableLines(b').value + EntryLines(x.0, x.1).value
        == TableLines(a).value + TableLines(b).value;
    }
  }

  /** A contact that is a plain object makes the table throw from its
      first entry on, whatever follows. */
  lemma {:induction false} ObjectContactThrows(options: Value, n: nat)
    requires Prop(options, "contact").Obj?
    requires n <= |OptionalDirectives|
    ensures TableLines(TableThrough(options, n)) == Fail(NotIterable)
  {
    if n == 0 {
      SingleEntryLines(ContactEntry(options).0, ContactEntry(options).1);
    } else {
      ObjectContactThrows(options, n - 1);
      var (key, field) := OptionalDirectives[n - 1];
      var front, last := TableThrough(options, n - 1), OptionalEntry(field, Prop(options, key));
      assert TableThrough(options, n) == front + last;
      assert (front + last)[..|front|] == front;
      TableLinesFailureSticks(front + last, |front|);
    }
  }

  /** Appending one optional directive to the table appends its line, if
      it is set, to the rendered lines. */
  lemma TableThroughStep(options: Value, n: nat)
    requires ValidatePolicyFields(options).Ok?
    requires 1 <= n <= |OptionalDirectives|
    requires TableLines(TableThrough(options, n - 1)).Ok?
    ensures TableLines(TableThrough(options, n)) ==
      Ok(TableLines(TableThrough(options, n - 1)).value + FieldLines(options, n)[|FieldLines(options, n - 1)|..])
  {
    var (key, field) := OptionalDirectives[n - 1];
    var v := Prop(options, key);
    ValidFieldsAreStrings(options, n - 1);
    var front, last := TableThrough(options, n - 1), OptionalEntry(field, v);
    assert TableThrough(options, n) == front + last;
    var f := FieldLines(options, n - 1);
    if Truthy(v) {
      SingleEntryLines(field, v);
      TableLinesAppend(front, last);
      assert FieldLines(options, n) == f + [Line(field, v.s)];
      assert FieldLines(options, n)[|f|..] == [Line(field, v.s)];
    } else {
      assert TableThrough(options, n) == front;
      assert FieldLines(options, n) == f;
      assert FieldLines(options, n)[|f|..] == [];
      assert TableLines(front).value + [] == TableLines(front).value;
    }
  }

  /** The table holding only the contact renders to the contact's lines. */
  lemma ContactTableRenders(options: Value)
    requires ValidatePolicyFields(options).Ok?
    requires !Prop(options, "contact").Obj?
    ensures TableLines(TableThrough(options, 0)) == Ok(ContactLines(Prop(options, "contact")) + FieldLines(options, 0))
  {
    var c := ContactLines(Prop(options, "contact"));
    assert !Violates(options, MissingContact);
    SingleEntryLines(ContactEntry(options).0, ContactEntry(options).1);
    ContactEntryLines(options);
    assert c + [] == c;
  }

  /** Without a plain-object contact, the table so far renders to the
      contact's lines followed by the lines of the optional directives
      considered so far. */
  lemma {:induction false} TableThroughRenders(options: Value, n: nat)
    requires ValidatePolicyFields(options).Ok?
    requires !Prop(options, "contact").Obj?
    requires n <= |OptionalDirectives|
    ensures TableLines(TableThrough(options, n)) == Ok(ContactLines(Prop(options, "contact")) + FieldLines(options, n))
  {
    var c := ContactLines(Prop(options, "contact"));
    if n == 0 {
      ContactTableRenders(options);
    } else {
      TableThroughRenders(options, n - 1);
      TableThroughStep(options, n);
      FieldLinesGrow(options, n);
      AppendAfterPrefix(c, FieldLines(options, n - 1), FieldLines(options, n));
    }
  }

  /** The lines of the first `n - 1` optional directives begin the lines
      of the first `n`. */
  lemma FieldLinesGrow(options: Value, n: nat)
    requires ValidatePolicyFields(options).Ok?
    requires 1 <= n <= |OptionalDirectives|
    ensures FieldLines(options, n - 1) <= FieldLines(options, n)
  {
  }

  /** Appending what `g` adds to its prefix `f` after `c + f` gives `c + g`. */
  lemma AppendAfterPrefix(c: seq<Line>, f: seq<Line>, g: seq<Line>)
    requires f <= g
    ensures c + f + g[|f|..] == c + g
  {
    assert g == f + g[|f|..];
  }

  /** The lines of valid options: the contact's lines first, then one line
      per set optional field, in the fixed directive order — whatever
      order the options object lists its properties in. A contact that is
      a plain object is the one valid input that throws instead. */
  lemma RenderedLines(options: Value)
    requires ValidatePolicyFields(options).Ok?
    ensures Prop(options, "contact").Obj? ==> TableLines(PolicySetting(options)) == Fail(NotIterable)
    ensures !Prop(options, "contact").Obj? ==>
      TableLines(PolicySetting(options)) == Ok(ContactLines(Prop(options, "contact")) + FieldLines(options, |OptionalDirectives|))
  {
    if Prop(options, "contact").Obj? {
      ObjectContactThrows(options, |OptionalDirectives|);
    } else {
      TableThroughRenders(options, |OptionalDirectives|);
    }
  }

  /** `formatSecurityPolicy` throws exactly when `validatePolicyFields`
      throws, with the same error, or, on valid options, when the contact
      is a plain object that `forEach` cannot walk. */
  lemma FormatFailsIffValidationFails(options: Value)
    ensures ValidatePolicyFields(options).Fail? ==> FormatPolicy(options) == Fail(ValidatePolicyFields(options).error)
    ensures ValidatePolicyFields(options).Ok? ==>
      (FormatPolicy(options).Fail? <==> Prop(options, "contact").Obj?)
    ensures FormatPolicy(options).Fail? && FormatPolicy(options).error.Rejected? ==>
      ValidatePolicyFields(options) == Fail(FormatPolicy(options).error)
  {
    if ValidatePolicyFields(options).Ok? {
      RenderedLines(options);
    }
  }

  /** The optional lines come in directive order, each directive once. */
  lemma {:induction false} FieldLinesOrdered(options: Value, n: nat)
    requires ValidatePolicyFields(options).Ok?
    requires n <= |OptionalDirectives|
    ensures forall i :: 0 <= i < |FieldLines(options, n)| ==>
      FieldLines(options, n)[i].field in DirectiveOrder
      && 1 <= DirectiveRank(FieldLines(options, n)[i].field) <= n
    ensures forall i, j :: 0 <= i < j < |FieldLines(options, n)| ==>
      DirectiveRank(FieldLines(options, n)[i].field) < DirectiveRank(FieldLines(options, n)[j].field)
  {
    if n > 0 {
      FieldLinesOrdered(options, n - 1);
      RankOfPosition(n);
      var f := FieldLines(options, n - 1);
      var (key, field) := OptionalDirectives[n - 1];
      var v := Prop(options, key);
      if Truthy(v) {
        assert FieldLines(options, n) == f + [Line(field, v.s)];
        assert DirectiveOrder[n] == field;
        AppendRanked(f, Line(field, v.s), n);
      } else {
        assert FieldLines(options, n) == f;
      }
    }
  }

  /** Lines of strictly increasing rank below `n`, followed by one line of
      rank `n`, are still in strictly increasing rank. */
  lemma AppendRanked(f: seq<Line>, l: Line, n: nat)
    requires forall i :: 0 <= i < |f| ==>
      f[i].field in DirectiveOrder && 1 <= DirectiveRank(f[i].field) <= n - 1
    requires forall i, j :: 0 <= i < j < |f| ==> DirectiveRank(f[i].field) < DirectiveRank(f[j].field)
    requires l.field in DirectiveOrder && 1 <= DirectiveRank(l.field) == n
    ensures forall i :: 0 <= i < |f + [l]| ==>
      (f + [l])[i].field in DirectiveOrder && 1 <= DirectiveRank((f + [l])[i].field) <= n
    ensures forall i, j :: 0 <= i < j < |f + [l]| ==>
      DirectiveRank((f + [l])[i].field) < DirectiveRank((f + [l])[j].field)
  {
    forall i | 0 <= i < |f + [l]| ensures (f + [l])[i] == if i < |f| then f[i] else l {
    }
  }

  /** Every line a contact renders to is a Contact line. */
  lemma ContactLinesAreContact(contact: Value)
    requires !IsObjectType(contact) || contact.Arr?
    ensures forall k :: 0 <= k < |ContactLines(contact)| ==> ContactLines(contact)[k].field == "Contact"
  {
  }

  /** Contact lines followed by lines of strictly increasing rank above
      Contact's: any two of them are in rank order, or both Contact. */
  lemma ContactThenRanked(c: seq<Line>, rest: seq<Line>, i: nat, j: nat)
    requires forall k :: 0 <= k < |c| ==> c[k].field == "Contact"
    requires forall k :: 0 <= k < |rest| ==>
      rest[k].field in DirectiveOrder && 1 <= DirectiveRank(rest[k].field)
    requires forall k, l :: 0 <= k < l < |rest| ==>
      DirectiveRank(rest[k].field) < DirectiveRank(rest[l].field)
    requires i < j < |c| + |rest|
    ensures (c + rest)[i].field in DirectiveOrder && (c + rest)[j].field in DirectiveOrder
    ensures DirectiveRank((c + rest)[i].field) < DirectiveRank((c + rest)[j].field)
      || ((c + rest)[i].field == "Contact" && (c + rest)[j].field == "Contact")
  {
    ContactRanksFirst();
    var n := |c|;
    if n <= i {
      assert (c + rest)[i] == rest[i - n] && (c + rest)[j] == rest[j - n];
    } else if n <= j {
      assert (c + rest)[i] == c[i] && (c + rest)[j] == rest[j - n];
    } else {
      assert (c + rest)[i] == c[i] && (c + rest)[j] == c[j];
    }
  }

  /** Contact lines followed by lines of strictly increasing rank above
      Contact's are all directive lines, in rank order except among the
      Contact lines. */
  lemma ContactThenRankedAll(c: seq<Line>, rest: seq<Line>)
    requires forall k :: 0 <= k < |c| ==> c[k].field == "Contact"
    requires forall k :: 0 <= k < |rest| ==>
      rest[k].field in DirectiveOrder && 1 <= DirectiveRank(rest[k].field)
    requires forall k, l :: 0 <= k < l < |rest| ==>
      DirectiveRank(rest[k].field) < DirectiveRank(rest[l].field)
    ensures forall i :: 0 <= i < |c + rest| ==> (c + rest)[i].field in DirectiveOrder
    ensures forall i, j :: 0 <= i < j < |c + rest| ==>
      DirectiveRank((c + rest)[i].field) < DirectiveRank((c + rest)[j].field)
      || ((c + rest)[i].field == "Contact" && (c + rest)[j].field == "Contact")
  {
    ContactRanksFirst();
    forall i | 0 <= i < |c + rest| ensures (c + rest)[i].field in DirectiveOrder {
      if i < |c| { assert (c + rest)[i] == c[i]; } else { assert (c + rest)[i] == rest[i - |c|]; }
    }
    forall i, j | 0 <= i < j < |c + rest|
      ensures DirectiveRank((c + rest)[i].field) < DirectiveRank((c + rest)[j].field)
        || ((c + rest)[i].field == "Contact" && (c + rest)[j].field == "Contact")
    {
      ContactThenRanked(c, rest, i, j);
    }
  }

  /** Output lines follow the fixed order Contact, Encryption,
      Acknowledgement, Signature, Policy, Hiring; only Contact can appear
      more than once, and all its lines come first. */
  lemma LinesFollowDirectiveOrder(options: Value, lines: seq<Line>)
    requires ValidatePolicyFields(options).Ok?
    requires TableLines(PolicySetting(options)) == Ok(lines)
    ensures forall i :: 0 <= i < |lines| ==> lines[i].field in DirectiveOrder
    ensures forall i, j :: 0 <= i < j < |lines| ==>
      DirectiveRank(lines[i].field) < DirectiveRank(lines[j].field)
      || (lines[i].field == "Contact" && lines[j].field == "Contact")
  {
    RenderedLines(options);
    var c := ContactLines(Prop(options, "contact"));
    var rest := FieldLines(options, |OptionalDirectives|);
    ContactLinesAreContact(Prop(options, "contact"));
    FieldLinesOrdered(options, |OptionalDirectives|);
    ContactThenRankedAll(c, rest);
  }

  /** The Contact lines are exactly the contact's own lines, at the front:
      one line for a string, one per element (never a comma-joined line)
      for an array. */
  lemma ContactLinesFirst(options: Value, lines: seq<Line>)
    requires ValidatePolicyFields(options).Ok?
    requires TableLines(PolicySetting(options)) == Ok(lines)
    ensures !Prop(options, "contact").Obj?
    ensures |ContactLines(Prop(options, "contact"))| <= |lines|
    ensures lines[..|ContactLines(Prop(options, "contact"))|] == ContactLines(Prop(options, "contact"))
    ensures forall i :: |ContactLines(Prop(options, "contact"))| <= i < |lines| ==> lines[i].field != "Contact"
  {
    RenderedLines(options);
    var contact := ContactLines(Prop(options, "contact"));
    var rest := FieldLines(options, |OptionalDirectives|);
    FieldLinesOrdered(options, |OptionalDirectives|);
    assert lines[|contact|..] == rest;
    forall i | |contact| <= i < |lines| ensures lines[i].field != "Contact" {
      assert lines[i] == rest[i - |contact|];
    }
  }

  /** How the contact shows in the rendered lines: a string contact gives
      exactly one Contact line holding it, an array one Contact line per
      element holding its string form, in array order, and any other set
      scalar one Contact line holding its string form; no line after those
      is a Contact line. */
  lemma ContactShapes(options: Value, lines: seq<Line>)
    requires ValidatePolicyFields(options).Ok?
    requires TableLines(PolicySetting(options)) == Ok(lines)
    ensures Prop(options, "contact").Str? ==>
      |lines| >= 1 && lines[0] == Line("Contact", Prop(options, "contact").s)
      && forall i :: 1 <= i < |lines| ==> lines[i].field != "Contact"
    ensures Prop(options, "contact").Arr? ==>
      var es := Prop(options, "contact").elems;
      |es| <= |lines|
      && (forall i :: 0 <= i < |es| ==> lines[i] == Line("Contact", ToString(es[i])))
      && forall i :: |es| <= i < |lines| ==> lines[i].field != "Contact"
    ensures !Prop(options, "contact").Str? && !Prop(options, "contact").Arr? ==>
      |lines| >= 1 && lines[0] == Line("Contact", ToString(Prop(options, "contact")))
      && forall i :: 1 <= i < |lines| ==> lines[i].field != "Contact"
  {
    ContactLinesFirst(options, lines);
    var contact := ContactLines(Prop(options, "contact"));
    forall i | 0 <= i < |contact| ensures lines[i] == contact[i] {
      assert lines[..|contact|][i] == lines[i];
    }
  }

  /** The options object holding only a (non-empty) string contact is
      valid and sets no optional field. */
  lemma OnlyStringContactValid(s: string)
    requires s != ""
    ensures ValidatePolicyFields(Obj(map["contact" := Str(s)])) == Ok(true)
    ensures FieldLines(Obj(map["contact" := Str(s)]), |OptionalDirectives|) == []
  {
    var options := Obj(map["contact" := Str(s)]);
    assert Prop(options, "contact") == Str(s);
    assert ValidatePolicyFields(options) == Ok(true);
    assert FieldLines(options, 1) == [];
    assert FieldLines(options, 2) == [];
    assert FieldLines(options, 3) == [];
    assert FieldLines(options, 4) == [];
  }

  /** Valid options whose table renders to `lines` format to those
      lines' texts joined by '\n'. */
  lemma FormatFromLines(options: Value, lines: seq<Line>)
    requires ValidatePolicyFields(options).Ok?
    requires TableLines(PolicySetting(options)) == Ok(lines)
    ensures FormatPolicy(options) == Ok(Join(Texts(lines), "\n"))
  {
  }

  /** The options object holding only a (non-empty) string contact
      renders to the one line `Contact: <value>`. */
  lemma OnlyStringContactLines(s: string)
    requires s != ""
    ensures TableLines(PolicySetting(Obj(map["contact" := Str(s)]))) == Ok([Line("Contact", s)])
  {
    var options := Obj(map["contact" := Str(s)]);
    OnlyStringContactValid(s);
    RenderedLines(options);
    assert Prop(options, "contact") == Str(s);
    assert ContactLines(Str(s)) + FieldLines(options, |OptionalDirectives|) == [Line("Contact", s)];
  }

  /** The options object holding only a (non-empty) string contact
      renders to exactly `Contact: <value>`. */
  lemma OnlyStringContact(s: string)
    requires s != ""
    ensures FormatPolicy(Obj(map["contact" := Str(s)])) == Ok("Contact: " + s)
  {
    var lines := [Line("Contact", s)];
    OnlyStringContactValid(s);
    OnlyStringContactLines(s);
    FormatFromLines(Obj(map["contact" := Str(s)]), lines);
    assert |Texts(lines)| == 1 && Texts(lines)[0] == "Contact: " + s;
  }

  /** Splitting the policy text on '\n' gives back its lines: `join` adds
      no trailing newline, provided no value contains a newline itself. A
      policy without lines is the empty text. */
  lemma TextSplitsIntoLines(options: Value, lines: seq<Line>)
    requires ValidatePolicyFields(options).Ok?
    requires TableLines(PolicySetting(options)) == Ok(lines)
    requires forall i :: 0 <= i < |lines| ==> '\n' !in lines[i].value
    ensures lines == [] ==> FormatPolicy(options) == Ok("")
    ensures lines != [] ==> FormatPolicy(options).Ok? && Split(FormatPolicy(options).value, '\n') == Texts(lines)
  {
    LinesFollowDirectiveOrder(options, lines);
    var texts := Texts(lines);
    forall i | 0 <= i < |texts| ensures '\n' !in texts[i] {
      DirectiveNamesOnOneLine(lines[i].field);
      assert texts[i] == lines[i].field + ": " + lines[i].value;
    }
    if lines != [] {
      SplitJoin(texts, '\n');
    }
  }

  /** A missing or falsy contact on an object is rejected as such. */
  lemma MissingContactRejected(options: Value)
    requires options.Obj? || options.Arr?
    requires !Truthy(Prop(options, "contact"))
    ensures ValidatePolicyFields(options) == Fail(Rejected(MissingContact))
  {
    var r := ValidatePolicyFields(options);
    assert Violates(options, MissingContact);
    assert r.Fail?;
    assert !Violates(options, NotAnObject) && !Violates(options, NullOptions);
    assert Rank(r.error.guard) <= 2;
  }

  /** For object options with a contact and a string encryption, whose
      other optional fields are unset or strings, the encryption decides:
      it is accepted exactly when its scheme is not `http://` in any letter
      case, and otherwise rejected as not HTTPS. */
  lemma EncryptionRule(options: Value, encryption: string)
    requires options.Obj? && Truthy(Prop(options, "contact"))
    requires Prop(options, "encryption") == Str(encryption)
    requires forall k :: 1 <= k < |OptionalDirectives| ==> !SetButNotString(Prop(options, OptionalDirectives[k].0))
    ensures ValidatePolicyFields(options).Ok? <==> !IsHttpUri(encryption)
    ensures IsHttpUri(encryption) ==> ValidatePolicyFields(options) == Fail(Rejected(EncryptionNotHttps))
  {
    var ks := OptionalDirectives;
    assert !SetButNotString(Prop(options, ks[1].0)) && !SetButNotString(Prop(options, ks[2].0));
    assert !SetButNotString(Prop(options, ks[3].0)) && !SetButNotString(Prop(options, ks[4].0));
    if IsHttpUri(encryption) {
      assert Violates(options, EncryptionNotHttps);
    }
  }

  /** `http://` in any case is refused; `https://` and other schemes are
      accepted. */
  lemma EncryptionSchemeExamples()
    ensures IsHttpUri("http://example.com/key.txt") && IsHttpUri("HTTP://example.com/key.txt")
    ensures !IsHttpUri("https://example.com/key.txt") && !IsHttpUri("dns:abc")
  {
    assert "HTTP://example.com/key.txt"[0] == 'H';
    assert "https://example.com/key.txt"[4] == 's';
  }

  /** A truthy acknowledgement, signature, policy or hiring that is not a
      string makes validation fail. */
  lemma SetNonStringFieldRejected(options: Value, k: nat)
    requires 1 <= k < |OptionalDirectives|
    requires SetButNotString(Prop(options, OptionalDirectives[k].0))
    ensures ValidatePolicyFields(options).Fail?
  {
    var g := [AcknowledgementNotString, SignatureNotString, PolicyNotString, HiringNotString][k - 1];
    assert Violates(options, g);
  }

  /** Two options values that put the same contact and the same optional
      entries into the table get the same table. */
  lemma {:induction false} TableThroughAgree(a: Value, b: Value, n: nat)
    requires n <= |OptionalDirectives|
    requires ContactEntry(a) == ContactEntry(b)
    requires forall j :: 0 <= j < n ==>
      OptionalEntry(OptionalDirectives[j].1, Prop(a, OptionalDirectives[j].0))
      == OptionalEntry(OptionalDirectives[j].1, Prop(b, OptionalDirectives[j].0))
    ensures TableThrough(a, n) == TableThrough(b, n)
  {
    if n > 0 {
      TableThroughAgree(a, b, n - 1);
    }
  }

  /** Two field values the middleware cannot tell apart: equal, or both
      unset (falsy). */
  predicate SameWhenSet(x: Value, y: Value)
  {
    x == y || (!Truthy(x) && !Truthy(y))
  }

  /** Two options values that agree on the type test, on the contact and,
      up to being unset, on every optional field the middleware reads. */
  predicate EquivalentOptions(a: Value, b: Value)
  {
    IsObjectType(a) == IsObjectType(b) && a.Null? == b.Null?
    && Prop(a, "contact") == Prop(b, "contact")
    && forall k :: 0 <= k < |OptionalDirectives| ==>
      SameWhenSet(Prop(a, OptionalDirectives[k].0), Prop(b, OptionalDirectives[k].0))
  }

  /** The verdict of validation is fixed by which guards the options
      violate: two options violating the same guards get the same result. */
  lemma SameGuardsSameVerdict(a: Value, b: Value)
    requires forall g :: Violates(a, g) == Violates(b, g)
    ensures ValidatePolicyFields(a) == ValidatePolicyFields(b)
  {
    var ra, rb := ValidatePolicyFields(a), ValidatePolicyFields(b);
    if ra.Fail? && rb.Fail? {
      var ga, gb := ra.error.guard, rb.error.guard;
      assert Violates(b, ga) && Violates(a, gb);
      assert Rank(ga) == Rank(gb);
    }
  }

  /** Options the middleware cannot tell apart violate the same guards. */
  lemma EquivalentOptionsViolateAlike(a: Value, b: Value)
    requires EquivalentOptions(a, b)
    ensures forall g :: Violates(a, g) == Violates(b, g)
  {
    var ks := OptionalDirectives;
    assert SameWhenSet(Prop(a, ks[0].0), Prop(b, ks[0].0));
    forall g ensures Violates(a, g) == Violates(b, g) {
      if g.AcknowledgementNotString? { assert SameWhenSet(Prop(a, ks[1].0), Prop(b, ks[1].0)); }
      if g.SignatureNotString? { assert SameWhenSet(Prop(a, ks[2].0), Prop(b, ks[2].0)); }
      if g.PolicyNotString? { assert SameWhenSet(Prop(a, ks[3].0), Prop(b, ks[3].0)); }
      if g.HiringNotString? { assert SameWhenSet(Prop(a, ks[4].0), Prop(b, ks[4].0)); }
    }
  }

  /** Options the middleware cannot tell apart validate and render alike. */
  lemma EquivalentOptionsBehaveAlike(a: Value, b: Value)
    requires EquivalentOptions(a, b)
    ensures ValidatePolicyFields(a) == ValidatePolicyFields(b)
    ensures FormatPolicy(a) == FormatPolicy(b)
  {
    var ks := OptionalDirectives;
    EquivalentOptionsViolateAlike(a, b);
    SameGuardsSameVerdict(a, b);
    forall j | 0 <= j < |ks|
      ensures OptionalEntry(ks[j].1, Prop(a, ks[j].0)) == OptionalEntry(ks[j].1, Prop(b, ks[j].0))
    {
      assert SameWhenSet(Prop(a, ks[j].0), Prop(b, ks[j].0));
    }
    TableThroughAgree(a, b, |ks|);
  }

  /** Adding a property the middleware does not read (a `disclosure`,
      say) changes nothing: it is neither checked nor rendered. */
  lemma UnreadPropertyIgnored(props: map<string, Value>, key: string, v: Value)
    requires key != "contact" && forall k :: 0 <= k < |OptionalDirectives| ==> key != OptionalDirectives[k].0
    ensures FormatPolicy(Obj(props[key := v])) == FormatPolicy(Obj(props))
    ensures ValidatePolicyFields(Obj(props[key := v])) == ValidatePolicyFields(Obj(props))
  {
    var a, b := Obj(props[key := v]), Obj(props);
    forall k | 0 <= k < |OptionalDirectives|
      ensures SameWhenSet(Prop(a, OptionalDirectives[k].0), Prop(b, OptionalDirectives[k].0))
    {
    }
    EquivalentOptionsBehaveAlike(a, b);
  }

  /** A falsy optional field is neither checked nor rendered: it behaves
      exactly like an absent one. */
  lemma FalsyFieldIgnored(props: map<string, Value>, k: nat, v: Value)
    requires k < |OptionalDirectives| && !Truthy(v)
    ensures ValidatePolicyFields(Obj(props[OptionalDirectives[k].0 := v]))
      == ValidatePolicyFields(Obj(props - {OptionalDirectives[k].0}))
    ensures FormatPolicy(Obj(props[OptionalDirectives[k].0 := v]))
      == FormatPolicy(Obj(props - {OptionalDirectives[k].0}))
  {
    var key := OptionalDirectives[k].0;
    var a, b := Obj(props[key := v]), Obj(props - {key});
    assert Prop(a, "contact") == Prop(b, "contact");
    forall j | 0 <= j < |OptionalDirectives|
      ensures SameWhenSet(Prop(a, OptionalDirectives[j].0), Prop(b, OptionalDirectives[j].0))
    {
    }
    EquivalentOptionsBehaveAlike(a, b);
  }
}
