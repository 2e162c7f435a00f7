/**
 * The `Author` entity and its two attribute-set hooks: `validate_name`
 * (present, not blank, and not the name of an Author already stored) and
 * `validate_phone` (exactly ten digits).  A hook either returns the
 * candidate, which is then written to the field, or raises `ValueError` and
 * leaves the field as it was.  The Record Store is represented by the names
 * of the stored Authors.
 */
module AuthorModel {
  import opened Outcomes
  import opened PyStr

  const NameRequiredMessage: string := "Author must have a name"
  const NameUniqueMessage: string := "Author name must be unique"
  const PhoneMessage: string := "Phone number must be exactly 10 digits"

  /** The length `validate_phone` demands. */
  const PhoneLength: nat := 10

  /** No name appears twice in `names`. */
  predicate Distinct(names: seq<string>) {
    forall i, j :: 0 <= i < j < |names| ==> names[i] != names[j]
  }

  /** What the name hook guarantees of the stored Authors when each accepted
      Author is stored before the next name is checked: every name is
      non-blank and no two are equal. */
  predicate StoredNamesValid(names: seq<string>) {
    Distinct(names) && forall i :: 0 <= i < |names| ==> !IsBlank(names[i])
  }

  /** The hook `validate_name` run against the names of the stored Authors.
      A missing, empty or whitespace-only name is refused first; the query
      for an Author with the same name then finds one exactly when some
      stored name equals the candidate, character for character. */
  function ValidateName(name: Option<string>, stored: seq<string>): (r: Outcome<Option<string>>)
    ensures r.Accepted? <==> name.Some? && !IsBlank(name.value) && name.value !in stored
    ensures r.Accepted? ==> r.value == name
    ensures r.Rejected? && (name.None? || IsBlank(name.value)) ==> r.message == NameRequiredMessage
    ensures r.Rejected? && name.Some? && !IsBlank(name.value) ==> r.message == NameUniqueMessage
  {
    if name.None? || name.value == "" || Strip(name.value) == "" then
      Rejected(NameRequiredMessage)
    else if name.value in stored then
      Rejected(NameUniqueMessage)
    else
      Accepted(name)
  }

  /** The hook `validate_phone`: a missing or empty value, or one that the
      regular expression of ten digits does not match in full, is refused. */
  function ValidatePhone(phone: Option<string>): (r: Outcome<Option<string>>)
    ensures r.Accepted? <==> phone.Some? && |phone.value| == PhoneLength
                             && forall i :: 0 <= i < |phone.value| ==> IsDigit(phone.value[i])
    ensures r.Accepted? ==> r.value == phone
    ensures r.Rejected? ==> r.message == PhoneMessage
  {
    if phone.None? || phone.value == "" then
      Rejected(PhoneMessage)
    else
      FullMatchDigitsIff(phone.value, PhoneLength);
      if !FullMatchDigits(phone.value, PhoneLength) then Rejected(PhoneMessage) else Accepted(phone)
  }

  /** A name that is empty or only white space is refused, whatever is stored. */
  lemma BlankNameRejected(s: string, stored: seq<string>)
    requires IsBlank(s)
    ensures ValidateName(Some(s), stored) == Rejected(NameRequiredMessage)
    ensures ValidateName(None, stored) == Rejected(NameRequiredMessage)
    ensures ValidateName(Some(""), stored) == Rejected(NameRequiredMessage)
    ensures ValidateName(Some(" \t\n"), stored) == Rejected(NameRequiredMessage)
  {
    var r := ValidateName(Some(s), stored);
    assert r.Rejected? && r.message == NameRequiredMessage;
    var ws := " \t\n";
    assert IsBlank(ws) by {
      assert IsSpace(ws[0]) && IsSpace(ws[1]) && IsSpace(ws[2]);
    }
  }

  /** Uniqueness is an exact, case-sensitive comparison: a stored name is
      refused a second time, while a name differing only in letter case or
      in surrounding white space is not. */
  lemma NameUniquenessExamples()
    ensures ValidateName(Some("Ann Lee"), ["Ann Lee"]) == Rejected(NameUniqueMessage)
    ensures ValidateName(Some("ann lee"), ["Ann Lee"]) == Accepted(Some("ann lee"))
    ensures ValidateName(Some(" Ann Lee"), ["Ann Lee"]) == Accepted(Some(" Ann Lee"))
  {
    assert !IsBlank("Ann Lee") by { assert !IsSpace("Ann Lee"[0]); }
    assert !IsBlank("ann lee") by { assert !IsSpace("ann lee"[0]); }
    assert !IsBlank(" Ann Lee") by { assert !IsSpace(" Ann Lee"[1]); }
    assert "ann lee" !in ["Ann Lee"] by { assert "ann lee"[0] != "Ann Lee"[0]; }
    assert " Ann Lee" !in ["Ann Lee"] by { assert |" Ann Lee"| != |"Ann Lee"|; }
  }

  /** The examples of a ten-digit telephone number: short, long and non-digit
      strings are refused, as is a missing or empty value. */
  lemma PhoneExamples()
    ensures ValidatePhone(Some("0123456789")).Accepted?
    ensures ValidatePhone(Some("123")).Rejected?
    ensures ValidatePhone(Some("12345678901")).Rejected?
    ensures ValidatePhone(Some("123abc4567")).Rejected?
    ensures ValidatePhone(Some("")).Rejected?
    ensures ValidatePhone(None).Rejected?
  {
    assert !IsDigit("123abc4567"[3]);
  }

  /** Appending each accepted name to the store keeps the stored names
      distinct and non-blank. */
  lemma {:induction false} AcceptedNameKeepsStoreValid(name: Option<string>, stored: seq<string>)
    requires StoredNamesValid(stored)
    requires ValidateName(name, stored).Accepted?
    ensures StoredNamesValid(stored + [name.value])
  {
    var s := stored + [name.value];
    forall i | 0 <= i < |s| ensures !IsBlank(s[i]) {
      if i < |stored| { assert s[i] == stored[i]; }
    }
    forall i, j | 0 <= i < j < |s| ensures s[i] != s[j] {
      if j == |stored| {
        assert s[i] == stored[i];
      } else {
        assert s[i] == stored[i] && s[j] == stored[j];
      }
    }
  }

  /** The check reads the store only at assignment time: two Authors whose
      names are both checked against the same store, before either is
      stored, may both be accepted with the same name, and storing both
      then breaks uniqueness. */
  lemma StaleCheckAdmitsDuplicate(n: string, stored: seq<string>)
    requires !IsBlank(n) && n !in stored
    ensures ValidateName(Some(n), stored) == Accepted(Some(n))
    ensures !Distinct(stored + [n] + [n])
  {
    var s := stored + [n] + [n];
    assert s[|stored|] == s[|stored| + 1];
  }

  /** The same race seen through the entities: two Authors built before
      either is stored both have their name checked against the same stored
      names, both accept the same name, and both end up holding it. */
  method StaleCheckThroughAuthors(n: string, stored: seq<string>) returns (a: Author, b: Author)
    requires !IsBlank(n) && n !in stored
    ensures a != b && a.name == Some(n) && b.name == Some(n)
    ensures !Distinct(stored + [a.name.value] + [b.name.value])
  {
    a := new Author();
    b := new Author();
    var ra := a.SetName(Some(n), stored);
    var rb := b.SetName(Some(n), stored);
    StaleCheckAdmitsDuplicate(n, stored);
  }

  /** An Author entity in memory.  `None` is a field never written (or, for
      the phone number, a column left NULL). */
  class Author {
    var name: Option<string>
    var phoneNumber: Option<string>

    /** Every field that has been written holds a value its hook accepted
        (uniqueness is relative to the store when the name was written). */
    ghost predicate Valid()
      reads this
    {
      (name.Some? ==> !IsBlank(name.value))
      && (phoneNumber.Some? ==> ValidatePhone(phoneNumber).Accepted?)
    }

    constructor ()
      ensures name == None && phoneNumber == None
      ensures Valid()
    {
      name := None;
      phoneNumber := None;
    }

    /** `author.name = candidate`: the hook reads the names stored so far. */
    method SetName(candidate: Option<string>, stored: seq<string>) returns (r: Outcome<Option<string>>)
      requires Valid()
      modifies this`name
      ensures Valid()
      ensures r == ValidateName(candidate, stored)
      ensures name == if r.Accepted? then candidate else old(name)
    {
      r := ValidateName(candidate, stored);
      if r.Accepted? {
        name := r.value;
      }
    }

    /** `author.phone_number = candidate`. */
    method SetPhoneNumber(candidate: Option<string>) returns (r: Outcome<Option<string>>)
      requires Valid()
      modifies this`phoneNumber
      ensures Valid()
      ensures r == ValidatePhone(candidate)
      ensures phoneNumber == if r.Accepted? then candidate else old(phoneNumber)
    {
      r := ValidatePhone(candidate);
      if r.Accepted? {
        phoneNumber := r.value;
      }
    }
  }

  /** The Authors held by the Record Store, seen through their names, in the
      order they were stored. */
  class AuthorStore {
    var names: seq<string>

    ghost predicate Valid()
      reads this
    {
      StoredNamesValid(names)
    }

    constructor ()
      ensures names == [] && Valid()
    {
      names := [];
    }

    /** `Author(name=name, phone_number=...)` followed by storing that one
        Author.  `phone` is `None` when the `phone_number` keyword is left
        out, and then its hook never runs and the column stays NULL;
        `Some(p)` passes the value `p`, which may itself be `None`.  The
        keyword arguments are assigned in order, so the name hook runs first
        and a refused name means the phone hook never runs.  The Author is
        stored only when every hook that runs accepts. */
    method Create(name: Option<string>, phone: Option<Option<string>>) returns (r: Outcome<Author>)
      requires Valid()
      modifies this
      ensures Valid()
      ensures ValidateName(name, old(names)).Rejected? ==>
                r == Rejected(ValidateName(name, old(names)).message) && names == old(names)
      ensures ValidateName(name, old(names)).Accepted? && phone.Some? && ValidatePhone(phone.value).Rejected? ==>
                r == Rejected(PhoneMessage) && names == old(names)
      ensures r.Accepted? <==> ValidateName(name, old(names)).Accepted?
                               && (phone.None? || ValidatePhone(phone.value).Accepted?)
      ensures r.Accepted? ==> fresh(r.value) && r.value.name == name
                              && r.value.phoneNumber == (if phone.Some? then phone.value else None)
                              && names == old(names) + [name.value]
    {
      var author := new Author();
      var rn := author.SetName(name, names);
      if rn.Rejected? {
        return Rejected(rn.message);
      }
      if phone.Some? {
        var rp := author.SetPhoneNumber(phone.value);
        if rp.Rejected? {
          return Rejected(rp.message);
        }
      }
      AcceptedNameKeepsStoreValid(name, names);
      names := names + [name.value];
      r := Accepted(author);
    }
  }

  /** An Author stored without a phone number still holds its name: a later
      Author with the same name is refused, whatever phone it brings. */
  method NameReservedWithoutPhone(store: AuthorStore, n: string, phone: Option<string>)
    returns (first: Outcome<Author>, second: Outcome<Author>)
    requires store.Valid() && !IsBlank(n) && n !in store.names
    modifies store
    ensures first.Accepted? && first.value.phoneNumber == None
    ensures second == Rejected(NameUniqueMessage)
    ensures store.names == old(store.names) + [n] && store.Valid()
  {
    first := store.Create(Some(n), None);
    second := store.Create(Some(n), Some(phone));
  }
}
