/** `ContactFormDialog`: the per-field rules run on every keystroke, the
    Save gate that runs them again over the current values, and the insert
    that a passing Save hands to the table. */
module ContactForm {
  import opened Wrappers
  import opened Platform
  import opened Contacts
  import opened ContactDao

  /** The five error texts the dialog can show under a field. */
  datatype FieldError =
    | NameRequired
    | MobileRequired
    | MobileNotDigits
    | EmailRequired
    | EmailInvalid
  {
    function Message(): string {
      match this
      case NameRequired => "Name is required"
      case MobileRequired => "Mobile number is required"
      case MobileNotDigits => "Mobile number should contain only digits"
      case EmailRequired => "Email is required"
      case EmailInvalid => "Enter a valid email address"
    }
  }

  /** Distinct errors show distinct texts. */
  lemma MessagesAreDistinct(e: FieldError, f: FieldError)
    ensures e.Message() == f.Message() <==> e == f
  {
  }

  /** The name rule: an error exactly when the name has no character that
      is not whitespace. */
  function ValidateName(lib: Library, name: string): (r: Option<FieldError>)
    ensures r.None? <==> exists i :: 0 <= i < |name| && !lib.isWhitespace(name[i])
    ensures r.Some? ==> r.value == NameRequired
  {
    if IsBlank(lib, name) then Some(NameRequired) else None
  }

  /** The mobile rule. Blankness is checked first, so a blank number is
      reported as missing and never as non-numeric. */
  function ValidateMobile(lib: Library, mobile: string): (r: Option<FieldError>)
    ensures r == Some(MobileRequired) <==> forall i :: 0 <= i < |mobile| ==> lib.isWhitespace(mobile[i])
    ensures r == Some(MobileNotDigits) <==>
              && (exists i :: 0 <= i < |mobile| && !lib.isWhitespace(mobile[i]))
              && (exists j :: 0 <= j < |mobile| && !lib.isDigit(mobile[j]))
    ensures r.None? <==>
              && (exists i :: 0 <= i < |mobile| && !lib.isWhitespace(mobile[i]))
              && (forall j :: 0 <= j < |mobile| ==> lib.isDigit(mobile[j]))
  {
    if IsBlank(lib, mobile) then Some(MobileRequired)
    else if !AllDigits(lib, mobile) then Some(MobileNotDigits)
    else None
  }

  /** The e-mail rule, again with blankness checked before the pattern. */
  function ValidateEmail(lib: Library, email: string): (r: Option<FieldError>)
    ensures r == Some(EmailRequired) <==> forall i :: 0 <= i < |email| ==> lib.isWhitespace(email[i])
    ensures r == Some(EmailInvalid) <==>
              (exists i :: 0 <= i < |email| && !lib.isWhitespace(email[i])) && !lib.emailAddress(email)
    ensures r.None? <==>
              (exists i :: 0 <= i < |email| && !lib.isWhitespace(email[i])) && lib.emailAddress(email)
  {
    if IsBlank(lib, email) then Some(EmailRequired)
    else if !lib.emailAddress(email) then Some(EmailInvalid)
    else None
  }

  /** The dialog's state: the four text fields and the three error slots
      shown under them. */
  datatype Form = Form(
    name: string,
    mobileNumber: string,
    emailAddress: string,
    description: string,
    nameError: Option<FieldError>,
    mobileError: Option<FieldError>,
    emailError: Option<FieldError>
  )

  /** The dialog as it opens: empty fields and no errors shown yet. */
  const Opened: Form := Form("", "", "", "", None, None, None)

  /** `onValueChange` of the name field. */
  function OnNameChange(lib: Library, f: Form, v: string): (g: Form)
    ensures g == f.(name := v, nameError := g.nameError)
    ensures g.nameError == Some(NameRequired) <==> IsBlank(lib, v)
    ensures g.nameError.None? <==> !IsBlank(lib, v)
  {
    f.(name := v, nameError := ValidateName(lib, v))
  }

  /** `onValueChange` of the mobile field. */
  function OnMobileChange(lib: Library, f: Form, v: string): (g: Form)
    ensures g == f.(mobileNumber := v, mobileError := g.mobileError)
    ensures g.mobileError == Some(MobileRequired) <==> IsBlank(lib, v)
    ensures g.mobileError == Some(MobileNotDigits) <==> !IsBlank(lib, v) && !AllDigits(lib, v)
    ensures g.mobileError.None? <==> !IsBlank(lib, v) && AllDigits(lib, v)
  {
    f.(mobileNumber := v, mobileError := ValidateMobile(lib, v))
  }

  /** `onValueChange` of the e-mail field. */
  function OnEmailChange(lib: Library, f: Form, v: string): (g: Form)
    ensures g == f.(emailAddress := v, emailError := g.emailError)
    ensures g.emailError == Some(EmailRequired) <==> IsBlank(lib, v)
    ensures g.emailError == Some(EmailInvalid) <==> !IsBlank(lib, v) && !lib.emailAddress(v)
    ensures g.emailError.None? <==> !IsBlank(lib, v) && lib.emailAddress(v)
  {
    f.(emailAddress := v, emailError := ValidateEmail(lib, v))
  }

  /** The description is stored as typed: no rule, no error slot. */
  function OnDescriptionChange(f: Form, v: string): (g: Form)
    ensures g.description == v
    ensures g.(description := f.description) == f
  {
    f.(description := v)
  }

  /** A keystroke sets only its own field and error slot, and sets the slot
      to what Save would compute from the new text: the two sites run the
      same rule. */
  lemma KeystrokeAgreesWithSave(lib: Library, f: Form, v: string, draw: IdDraw)
    ensures
      var g := OnNameChange(lib, f, v);
      g == f.(name := v, nameError := g.nameError)
      && g.nameError == OnSave(lib, g, draw).form.nameError
    ensures
      var g := OnMobileChange(lib, f, v);
      g == f.(mobileNumber := v, mobileError := g.mobileError)
      && g.mobileError == OnSave(lib, g, draw).form.mobileError
    ensures
      var g := OnEmailChange(lib, f, v);
      g == f.(emailAddress := v, emailError := g.emailError)
      && g.emailError == OnSave(lib, g, draw).form.emailError
  {
  }

  /** The description takes part in no rule: any text, the empty one
      included, leaves the Save decision as it was and is stored as typed. */
  lemma DescriptionIsNeverChecked(lib: Library, f: Form, v: string, draw: IdDraw)
    ensures
      var g := OnDescriptionChange(f, v);
      && g == f.(description := v)
      && (OnSave(lib, g, draw).effect.InsertAndClose? <==> OnSave(lib, f, draw).effect.InsertAndClose?)
      && OnSave(lib, g, draw).form.nameError == OnSave(lib, f, draw).form.nameError
      && OnSave(lib, g, draw).form.mobileError == OnSave(lib, f, draw).form.mobileError
      && OnSave(lib, g, draw).form.emailError == OnSave(lib, f, draw).form.emailError
      && (OnSave(lib, g, draw).effect.InsertAndClose? ==> OnSave(lib, g, draw).effect.contact.description == v)
  {
  }

  /** The values `(0..1000000).random()` can produce. */
  type IdDraw = x: int | 0 <= x <= 1000000

  /** What pressing Save leads to: the dialog stays open, or a record is
      handed to `insertContact` and the dialog reports success and closes. */
  datatype Effect = StayOpen | InsertAndClose(contact: Contact)

  datatype SaveResult = SaveResult(form: Form, effect: Effect)

  /** The three rules pass, stated directly over the characters. */
  ghost predicate Acceptable(lib: Library, f: Form) {
    && (exists i :: 0 <= i < |f.name| && !lib.isWhitespace(f.name[i]))
    && (exists i :: 0 <= i < |f.mobileNumber| && !lib.isWhitespace(f.mobileNumber[i]))
    && (forall j :: 0 <= j < |f.mobileNumber| ==> lib.isDigit(f.mobileNumber[j]))
    && (exists i :: 0 <= i < |f.emailAddress| && !lib.isWhitespace(f.emailAddress[i]))
    && lib.emailAddress(f.emailAddress)
  }

  /** The Save button. All three errors are recomputed from the current
      values, whatever the slots held before; a record is built only when
      all three come out empty, from the exact field values and the drawn
      id. */
  function OnSave(lib: Library, f: Form, draw: IdDraw): (r: SaveResult)
    ensures r.form.name == f.name && r.form.mobileNumber == f.mobileNumber
    ensures r.form.emailAddress == f.emailAddress && r.form.description == f.description
    ensures r.form.nameError == ValidateName(lib, f.name)
    ensures r.form.mobileError == ValidateMobile(lib, f.mobileNumber)
    ensures r.form.emailError == ValidateEmail(lib, f.emailAddress)
    ensures r.effect.InsertAndClose? <==> Acceptable(lib, f)
    ensures r.effect.InsertAndClose? ==>
              r.effect.contact == Contact(draw, f.name, f.mobileNumber, f.emailAddress, f.description)
              && 0 <= r.effect.contact.id <= 1000000
  {
    var checked := f.(nameError := ValidateName(lib, f.name),
                      mobileError := ValidateMobile(lib, f.mobileNumber),
                      emailError := ValidateEmail(lib, f.emailAddress));
    if checked.nameError.None? && checked.mobileError.None? && checked.emailError.None? then
      SaveResult(checked, InsertAndClose(Contact(draw, f.name, f.mobileNumber, f.emailAddress, f.description)))
    else
      SaveResult(checked, StayOpen)
  }

  /** The error slots left by keystrokes are never consulted: two forms
      with the same text save identically. */
  lemma SaveIgnoresStaleErrors(lib: Library, f: Form, g: Form, draw: IdDraw)
    requires f.name == g.name && f.mobileNumber == g.mobileNumber
    requires f.emailAddress == g.emailAddress && f.description == g.description
    ensures OnSave(lib, f, draw) == OnSave(lib, g, draw)
  {
  }

  /** Pressing Save on the freshly opened dialog, whose slots are all empty,
      still rejects: empty name, mobile and e-mail are all blank. */
  lemma OpenedDialogIsRejected(lib: Library, draw: IdDraw)
    ensures OnSave(lib, Opened, draw).effect == StayOpen
    ensures OnSave(lib, Opened, draw).form.nameError == Some(NameRequired)
    ensures OnSave(lib, Opened, draw).form.mobileError == Some(MobileRequired)
    ensures OnSave(lib, Opened, draw).form.emailError == Some(EmailRequired)
  {
  }

  /** The outcome of Save as the user sees it: the dialog's state, the
      table after the insert it issued (if any), and whether
      `onContactSaved` ran (which closes the dialog and shows the
      "saved" message). */
  datatype SubmitResult = SubmitResult(form: Form, table: Table, saved: bool)

  /** Save followed by `insertContact`, as the app does it: success is
      signalled as soon as the insert is issued, without looking at what
      the table did with it. */
  function Submit(lib: Library, t: Table, f: Form, draw: IdDraw): (r: SubmitResult)
    requires Valid(t)
    ensures Valid(r.table)
    ensures r.saved <==> Acceptable(lib, f)
    ensures !r.saved ==> r.table == t
    // an unused drawn id: exactly the typed record is added under it
    ensures r.saved && draw != Unassigned && draw !in t.rows ==>
              Records(r.table) == Records(t) + {Contact(draw, f.name, f.mobileNumber, f.emailAddress, f.description)}
    // a draw of 0 is read as "unassigned": the table picks a fresh id
    ensures r.saved && draw == Unassigned ==>
              exists id :: id !in t.rows && id != Unassigned
                           && Records(r.table) == Records(t) + {Contact(id, f.name, f.mobileNumber, f.emailAddress, f.description)}
    // a drawn id already in use: the insert aborts, success is signalled anyway
    ensures r.saved && draw in t.rows ==> r.table == t
  {
    var s := OnSave(lib, f, draw);
    match s.effect
    case StayOpen => SubmitResult(s.form, t, false)
    case InsertAndClose(c) =>
      var ins := AddContact(t, c);
      SubmitResult(s.form, ins.table, true)
  }

  /** The rules hold of every stored record. */
  ghost predicate AllRecordsAcceptable(lib: Library, t: Table) {
    forall c :: c in Records(t) ==>
      Acceptable(lib, Form(c.name, c.mobileNumber, c.emailAddress, c.description, None, None, None))
  }

  /** Saving through the dialog and deleting from the list never put a
      record that breaks a rule into the table. */
  lemma SubmitKeepsRecordsAcceptable(lib: Library, t: Table, f: Form, draw: IdDraw)
    requires Valid(t) && AllRecordsAcceptable(lib, t)
    ensures AllRecordsAcceptable(lib, Submit(lib, t, f, draw).table)
  {
    var r := Submit(lib, t, f, draw);
    if r.saved && r.table != t {
      var c := Contact(draw, f.name, f.mobileNumber, f.emailAddress, f.description);
      var ins := AddContact(t, c);
      assert r.table == ins.table;
      forall x | x in Records(r.table)
        ensures Acceptable(lib, Form(x.name, x.mobileNumber, x.emailAddress, x.description, None, None, None))
      {
        if x !in Records(t) {
          assert x == c.(id := ins.rowId.value);
        }
      }
    }
  }

  lemma DeleteKeepsRecordsAcceptable(lib: Library, t: Table, c: Contact)
    requires Valid(t) && AllRecordsAcceptable(lib, t)
    ensures AllRecordsAcceptable(lib, DeleteContact(t, c))
  {
  }

  /** Save with the id left for the table to assign (`Unassigned`), which is
      what the `autoGenerate = true` key is for. Every accepted form is then
      stored, under an id no other record has. */
  function SubmitStoreAssigned(lib: Library, t: Table, f: Form): (r: SubmitResult)
    requires Valid(t)
    ensures Valid(r.table)
    ensures r.saved <==> Acceptable(lib, f)
    ensures !r.saved ==> r.table == t
    ensures r.saved ==>
              exists id :: id !in t.rows && id != Unassigned
                           && Records(r.table) == Records(t) + {Contact(id, f.name, f.mobileNumber, f.emailAddress, f.description)}
  {
    var s := OnSave(lib, f, Unassigned);
    match s.effect
    case StayOpen => SubmitResult(s.form, t, false)
    case InsertAndClose(c) =>
      var ins := AddContact(t, c);
      assert ins.rowId.Some?;
      SubmitResult(s.form, ins.table, true)
  }

  /** With a random id, an accepted form whose draw hits a stored id is
      reported as saved, yet the insert aborts and the table is unchanged. */
  lemma RandomIdCollisionLosesContact(lib: Library, t: Table, f: Form, draw: IdDraw)
    requires Valid(t) && Acceptable(lib, f)
    requires draw in t.rows
    ensures Submit(lib, t, f, draw).saved
    ensures Submit(lib, t, f, draw).table == t
  {
  }

  /** A sample library for the examples: only the space is whitespace,
      '0'..'9' are the digits, case mappings are the identity, and the
      e-mail pattern accepts "ann@x.com" alone. It is not meant to mirror
      the real tables. */
  const SampleLibrary: Library := Library(
    c => c == ' ',
    c => '0' <= c <= '9',
    c => c,
    c => c,
    s => s,
    s => s == "ann@x.com")

  /** The collision on concrete data: a table holding contact 42 and a draw
      of 42. "Ann" is reported saved and is nowhere in the table. */
  lemma AnnCollidesWithContact42()
    ensures
      var t := Table(map[42 := Contact(42, "Bob", "555", "bob@x.com", "")], 42);
      var f := Form("Ann", "12345", "ann@x.com", "", None, None, None);
      var r := Submit(SampleLibrary, t, f, 42);
      r.saved && r.table == t
      && forall c :: c in Records(r.table) ==> c.name != "Ann"
  {
    var t := Table(map[42 := Contact(42, "Bob", "555", "bob@x.com", "")], 42);
    var f := Form("Ann", "12345", "ann@x.com", "", None, None, None);
    assert !SampleLibrary.isWhitespace(f.name[0]);
    assert !SampleLibrary.isWhitespace(f.mobileNumber[0]);
    assert !SampleLibrary.isWhitespace(f.emailAddress[0]);
    assert Acceptable(SampleLibrary, f);
    RandomIdCollisionLosesContact(SampleLibrary, t, f, 42);
  }

  /** Example: Ann's form is accepted and, with the table
      assigning the id, her record appears with exactly the typed values. */
  lemma AnnIsStored(t: Table)
    requires Valid(t)
    ensures
      var f := Form("Ann", "12345", "ann@x.com", "", None, None, None);
      var r := SubmitStoreAssigned(SampleLibrary, t, f);
      r.saved && exists id :: id !in t.rows && Contact(id, "Ann", "12345", "ann@x.com", "") in Records(r.table)
  {
    var f := Form("Ann", "12345", "ann@x.com", "", None, None, None);
    assert !SampleLibrary.isWhitespace(f.name[0]);
    assert !SampleLibrary.isWhitespace(f.mobileNumber[0]);
    assert !SampleLibrary.isWhitespace(f.emailAddress[0]);
    assert Acceptable(SampleLibrary, f);
  }

  /** Example: an empty name is refused with the name
      error, whatever the rest of the form holds, and the table is left
      alone. */
  lemma EmptyNameIsRefused(lib: Library, t: Table, f: Form, draw: IdDraw)
    requires Valid(t) && f.name == ""
    ensures !Submit(lib, t, f, draw).saved
    ensures Submit(lib, t, f, draw).table == t
    ensures Submit(lib, t, f, draw).form.nameError == Some(NameRequired)
  {
  }
}
