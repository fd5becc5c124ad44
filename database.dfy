/**
 * The record store (crm_cli_app/database.py): create, read, update and delete
 * over a list of documents, each a map from field names to strings kept under
 * a numeric id. The document database the program uses is replaced by a list
 * of entries in insertion order and a counter for the next id.
 */
module Database {
  import opened Results
  import opened Text
  import opened Collapse
  import opened Users

  /** A stored document: field name to value. */
  type Doc = map<string, string>

  /** A document with the id it was inserted under. */
  datatype Entry = Entry(id: nat, doc: Doc)

  /** The store's reasons to refuse an operation. */
  datatype StoreError =
    | Duplicate               // create: a document already has the email
    | NotFound                // update, delete: no document has the email
    | UnknownKey              // update: a patch key that is not a field name
    | Invalid(error: FieldError)

  // ----- queries -----

  /** The query `where("email") == email`. */
  predicate HasEmail(d: Doc, email: string)
  {
    EmailKey in d && d[EmailKey] == email
  }

  /** Some stored document has the email. */
  predicate EmailTaken(entries: seq<Entry>, email: string)
  {
    exists k :: 0 <= k < |entries| && HasEmail(entries[k].doc, email)
  }

  /** `search`: every document with the email, in order. */
  function Search(entries: seq<Entry>, email: string): (r: seq<Doc>)
    ensures r == [] <==> !EmailTaken(entries, email)
    ensures forall d :: d in r ==> HasEmail(d, email)
  {
    if entries == [] then []
    else (if HasEmail(entries[0].doc, email) then [entries[0].doc] else [])
         + Search(entries[1..], email)
  }

  /** `get`: the position of the first document with the email. */
  function FirstMatch(entries: seq<Entry>, email: string): (r: Option<nat>)
    ensures r.None? <==> !EmailTaken(entries, email)
    ensures r.Some? ==> r.value < |entries| && HasEmail(entries[r.value].doc, email)
    ensures r.Some? ==> forall k :: 0 <= k < r.value ==> !HasEmail(entries[k].doc, email)
  {
    if entries == [] then None
    else if HasEmail(entries[0].doc, email) then Some(0)
    else match FirstMatch(entries[1..], email)
      case None => None
      case Some(k) => Some(k + 1)
  }

  /** `all`: the documents in insertion order. */
  function DocsOf(entries: seq<Entry>): (r: seq<Doc>)
    ensures |r| == |entries| && forall k :: 0 <= k < |entries| ==> r[k] == entries[k].doc
  {
    seq(|entries|, k requires 0 <= k < |entries| => entries[k].doc)
  }

  /** `update(fields, doc_ids=[id])`: the document with the id takes the patch's
      values for the patch's keys. */
  function UpdateById(entries: seq<Entry>, id: nat, fields: Doc): seq<Entry>
  {
    seq(|entries|, k requires 0 <= k < |entries| =>
      if entries[k].id == id then Entry(id, entries[k].doc + fields) else entries[k])
  }

  /** `remove(doc_ids=[id])`: every document with the id is dropped. */
  function RemoveById(entries: seq<Entry>, id: nat): seq<Entry>
  {
    if entries == [] then []
    else (if entries[0].id == id then [] else [entries[0]]) + RemoveById(entries[1..], id)
  }

  /** Ids strictly increase along the list, so no two documents share one. */
  predicate IdsIncreasing(entries: seq<Entry>)
  {
    forall a, b :: 0 <= a < b < |entries| ==> entries[a].id < entries[b].id
  }

  /** Dropping one entry keeps the ids increasing and below any bound they had. */
  lemma RemoveKeepsIds(entries: seq<Entry>, k: nat, bound: nat)
    requires IdsIncreasing(entries) && k < |entries|
    requires forall j :: 0 <= j < |entries| ==> entries[j].id < bound
    ensures var r := entries[..k] + entries[k + 1..];
      IdsIncreasing(r) && forall j :: 0 <= j < |r| ==> r[j].id < bound
  {
    var r := entries[..k] + entries[k + 1..];
    assert forall j :: 0 <= j < |r| ==> r[j] == entries[if j < k then j else j + 1];
  }

  /** Updating by the id of the entry at `k` changes that entry's document and
      no other entry. */
  lemma UpdateByIdAt(entries: seq<Entry>, k: nat, fields: Doc)
    requires IdsIncreasing(entries) && k < |entries|
    ensures var r := UpdateById(entries, entries[k].id, fields);
      && |r| == |entries|
      && r[k] == Entry(entries[k].id, entries[k].doc + fields)
      && forall j :: 0 <= j < |entries| && j != k ==> r[j] == entries[j]
  {
    var r := UpdateById(entries, entries[k].id, fields);
    forall j | 0 <= j < |entries| && j != k
      ensures r[j] == entries[j]
    {
      assert entries[j].id != entries[k].id;
    }
  }

  /** Removing by the id of the entry at `k` drops exactly that entry. */
  lemma {:induction false} RemoveByIdAt(entries: seq<Entry>, k: nat)
    requires IdsIncreasing(entries) && k < |entries|
    ensures RemoveById(entries, entries[k].id) == entries[..k] + entries[k + 1..]
  {
    var id := entries[k].id;
    var tail := entries[1..];
    assert IdsIncreasing(tail) by {
      forall a, b | 0 <= a < b < |tail|
        ensures tail[a].id < tail[b].id
      {
        assert tail[a] == entries[a + 1] && tail[b] == entries[b + 1];
      }
    }
    if k == 0 {
      RemoveAbsent(tail, id);
      assert entries[1..] == tail;
    } else {
      assert entries[0].id != id;
      RemoveByIdAt(tail, k - 1);
      assert tail[k - 1] == entries[k];
      assert entries[..k] == [entries[0]] + tail[..k - 1];
      assert tail[k..] == entries[k + 1..];
    }
  }

  /** Removing an id that is not present changes nothing. */
  lemma {:induction false} RemoveAbsent(entries: seq<Entry>, id: nat)
    requires forall j :: 0 <= j < |entries| ==> entries[j].id != id
    ensures RemoveById(entries, id) == entries
  {
    if entries != [] {
      RemoveAbsent(entries[1..], id);
      assert [entries[0]] + entries[1..] == entries;
    }
  }

  // ----- one record per email -----

  /** No two stored documents have the same email. */
  predicate UniqueEmails(entries: seq<Entry>)
  {
    forall a, b :: 0 <= a < b < |entries| && EmailKey in entries[a].doc && EmailKey in entries[b].doc
      ==> entries[a].doc[EmailKey] != entries[b].doc[EmailKey]
  }

  /** Creation appends only when the email is free, so it keeps emails unique. */
  lemma CreateKeepsUniqueEmails(entries: seq<Entry>, id: nat, u: User)
    requires UniqueEmails(entries) && !EmailTaken(entries, u.email)
    ensures UniqueEmails(entries + [Entry(id, ToDict(u))])
  {
    var r := entries + [Entry(id, ToDict(u))];
    forall a, b | 0 <= a < b < |r| && EmailKey in r[a].doc && EmailKey in r[b].doc
      ensures r[a].doc[EmailKey] != r[b].doc[EmailKey]
    {
      if b == |entries| {
        assert r[a] == entries[a];
        assert !HasEmail(entries[a].doc, u.email);
      } else {
        assert r[a] == entries[a] && r[b] == entries[b];
      }
    }
  }

  /** Deletion keeps emails unique. */
  lemma DeleteKeepsUniqueEmails(entries: seq<Entry>, k: nat)
    requires UniqueEmails(entries) && IdsIncreasing(entries) && k < |entries|
    ensures UniqueEmails(RemoveById(entries, entries[k].id))
  {
    RemoveByIdAt(entries, k);
    UniqueWithout(entries, k);
  }

  lemma UniqueWithout(entries: seq<Entry>, k: nat)
    requires UniqueEmails(entries) && k < |entries|
    ensures UniqueEmails(entries[..k] + entries[k + 1..])
  {
    var r := entries[..k] + entries[k + 1..];
    assert forall j :: 0 <= j < |r| ==> r[j] == entries[if j < k then j else j + 1];
  }

  // ----- normalising an update patch -----

  /** The patch as far as normalisation got, and the error that stopped it. */
  datatype PatchResult = PatchResult(fields: Doc, failure: Option<StoreError>)

  /** The email step: the value is lower-cased in the patch, then checked. */
  function EmailStage(p: Doc): (r: PatchResult)
    ensures r.fields.Keys == p.Keys
    ensures forall key :: key in p && key != EmailKey ==> r.fields[key] == p[key]
    ensures EmailKey in p ==> r.fields[EmailKey] == NormalisedValue(EmailKey, p[EmailKey])
    ensures r.failure.None? <==> (EmailKey in p ==> ValueAccepted(EmailKey, p[EmailKey]))
    ensures r.failure.Some? ==> r.failure.value.Invalid?
  {
    if EmailKey !in p then PatchResult(p, None)
    else
      var v := Lower(p[EmailKey]);
      match EmailCheck(v)
      case Fail(e) => PatchResult(p[EmailKey := v], Some(Invalid(e)))
      case Pass => PatchResult(p[EmailKey := v], None)
  }

  /** A name step: the value is title-cased and stripped in the patch, then the
      normalised value is checked (unlike the constructor, which checks the
      first name as given). */
  function NameStage(p: Doc, key: string, field: NameField): (r: PatchResult)
    requires (key == FirstNameKey && field == First) || (key == LastNameKey && field == Last)
    ensures r.fields.Keys == p.Keys
    ensures forall k :: k in p && k != key ==> r.fields[k] == p[k]
    ensures key in p ==> r.fields[key] == NormalisedValue(key, p[key])
    ensures r.failure.None? <==> (key in p ==> ValueAccepted(key, p[key]))
    ensures r.failure.Some? ==> r.failure.value.Invalid?
  {
    if key !in p then PatchResult(p, None)
    else
      var v := NormaliseName(p[key]);
      match CheckName(v, field)
      case Fail(e) => PatchResult(p[key := v], Some(Invalid(e)))
      case Pass => PatchResult(p[key := v], None)
  }

  /** The phone step: the value is checked as it is. */
  function PhoneStage(p: Doc): (r: PatchResult)
    ensures r.fields == p
    ensures r.failure.None? <==> (PhoneNumberKey in p ==> ValueAccepted(PhoneNumberKey, p[PhoneNumberKey]))
    ensures r.failure.Some? ==> r.failure.value.Invalid?
  {
    if PhoneNumberKey !in p then PatchResult(p, None)
    else
      match CheckPhone(p[PhoneNumberKey])
      case Fail(e) => PatchResult(p, Some(Invalid(e)))
      case Pass => PatchResult(p, None)
  }

  /** The address step: the value is stripped in the patch, then checked and
      replaced by its collapse. */
  function AddressStage(p: Doc): (r: PatchResult)
    ensures r.fields.Keys == p.Keys
    ensures forall key :: key in p && key != AddressKey ==> r.fields[key] == p[key]
    ensures r.failure.None? <==> (AddressKey in p ==> ValueAccepted(AddressKey, p[AddressKey]))
    ensures r.failure.None? && AddressKey in p ==> r.fields[AddressKey] == NormalisedValue(AddressKey, p[AddressKey])
    ensures r.failure.Some? ==> r.failure.value.Invalid?
  {
    if AddressKey !in p then PatchResult(p, None)
    else
      var v := Strip(p[AddressKey]);
      match AddressCheck(v)
      case Failure(e) => PatchResult(p[AddressKey := v], Some(Invalid(e)))
      case Success(a) => PatchResult(p[AddressKey := a], None)
  }

  /** The whole of `update_user`'s work on the patch, before anything is
      written: the five steps in order, each stopping at its error, then the
      test for keys that are not field names. */
  function NormalisePatch(p: Doc): PatchResult
  {
    var s1 := EmailStage(p);
    if s1.failure.Some? then s1 else
    var s2 := NameStage(s1.fields, FirstNameKey, First);
    if s2.failure.Some? then s2 else
    var s3 := NameStage(s2.fields, LastNameKey, Last);
    if s3.failure.Some? then s3 else
    var s4 := PhoneStage(s3.fields);
    if s4.failure.Some? then s4 else
    var s5 := AddressStage(s4.fields);
    if s5.failure.Some? then s5 else
    if !(s5.fields.Keys <= FieldNames) then PatchResult(s5.fields, Some(UnknownKey))
    else s5
  }

  /** The value a field takes when its patch value is accepted. */
  function NormalisedValue(key: string, v: string): string
  {
    if key == EmailKey then Lower(v)
    else if key == FirstNameKey || key == LastNameKey then NormaliseName(v)
    else if key == AddressKey then Collapsed(Strip(v))
    else v
  }

  /** The patch value of a field is acceptable. */
  predicate ValueAccepted(key: string, v: string)
  {
    if key == EmailKey then EmailCheck(Lower(v)) == Pass
    else if key == FirstNameKey then CheckName(NormaliseName(v), First) == Pass
    else if key == LastNameKey then CheckName(NormaliseName(v), Last) == Pass
    else if key == PhoneNumberKey then CheckPhone(v) == Pass
    else if key == AddressKey then AddressCheck(Strip(v)).Success?
    else false
  }

  /** Normalisation rewrites values but never adds or drops a key. */
  lemma NormalisePatchKeys(p: Doc)
    ensures NormalisePatch(p).fields.Keys == p.Keys
  {
  }

  /** The five field names are different strings. */
  lemma FieldKeysDistinct()
    ensures EmailKey != FirstNameKey && EmailKey != LastNameKey && EmailKey != PhoneNumberKey
    ensures EmailKey != AddressKey && FirstNameKey != LastNameKey && FirstNameKey != PhoneNumberKey
    ensures FirstNameKey != AddressKey && LastNameKey != PhoneNumberKey && LastNameKey != AddressKey
    ensures PhoneNumberKey != AddressKey
  {
    assert |EmailKey| == 5 && |FirstNameKey| == 10 && |LastNameKey| == 9;
    assert |PhoneNumberKey| == 12 && |AddressKey| == 7;
  }

  /** Each step sees the patch's own value for its key: the earlier steps
      rewrote only their own keys. */
  lemma StageInputs(p: Doc)
    ensures var s1 := EmailStage(p);
      var s2 := NameStage(s1.fields, FirstNameKey, First);
      var s3 := NameStage(s2.fields, LastNameKey, Last);
      && (FirstNameKey in p ==> s1.fields[FirstNameKey] == p[FirstNameKey])
      && (LastNameKey in p ==> s2.fields[LastNameKey] == p[LastNameKey])
      && (PhoneNumberKey in p ==> s3.fields[PhoneNumberKey] == p[PhoneNumberKey])
      && (AddressKey in p ==> s3.fields[AddressKey] == p[AddressKey])
  {
    FieldKeysDistinct();
  }

  /** The five field steps all pass. */
  predicate FieldStagesPass(p: Doc)
  {
    var s1 := EmailStage(p);
    var s2 := NameStage(s1.fields, FirstNameKey, First);
    var s3 := NameStage(s2.fields, LastNameKey, Last);
    && s1.failure.None? && s2.failure.None? && s3.failure.None?
    && PhoneStage(s3.fields).failure.None? && AddressStage(s3.fields).failure.None?
  }

  /** The outcome of normalisation: no error iff every step passes and every key
      is a field name; the unknown-key error iff every step passes and some key
      is not. */
  lemma FailureShape(p: Doc)
    ensures NormalisePatch(p).failure.None? <==> FieldStagesPass(p) && p.Keys <= FieldNames
    ensures NormalisePatch(p).failure == Some(UnknownKey) <==> FieldStagesPass(p) && !(p.Keys <= FieldNames)
  {
    var s1 := EmailStage(p);
    var s2 := NameStage(s1.fields, FirstNameKey, First);
    var s3 := NameStage(s2.fields, LastNameKey, Last);
    assert s3.fields.Keys == p.Keys;
  }

  /** The steps all pass iff every field-name key of the patch has an
      acceptable value. */
  lemma FieldStagesPassIff(p: Doc)
    ensures FieldStagesPass(p) <==> forall key :: key in p && key in FieldNames ==> ValueAccepted(key, p[key])
  {
    if FieldStagesPass(p) {
      forall key | key in p && key in FieldNames
        ensures ValueAccepted(key, p[key])
      {
        AcceptedKey(p, key);
      }
    } else {
      StageInputs(p);
    }
  }

  /** A patch is accepted exactly when all its keys are field names and every
      value is acceptable. */
  lemma NormalisePatchAccepted(p: Doc)
    ensures NormalisePatch(p).failure.None? <==>
      p.Keys <= FieldNames && forall key :: key in p ==> ValueAccepted(key, p[key])
  {
    FailureShape(p);
    FieldStagesPassIff(p);
  }

  lemma AcceptedKey(p: Doc, key: string)
    requires FieldStagesPass(p) && key in p && key in FieldNames
    ensures ValueAccepted(key, p[key])
  {
    StageInputs(p);
    if key == EmailKey {
    } else if key == FirstNameKey {
    } else if key == LastNameKey {
    } else if key == PhoneNumberKey {
    } else {
      assert key == AddressKey;
    }
  }

  /** An accepted patch went through every step without error. */
  lemma StagesPass(p: Doc)
    requires NormalisePatch(p).failure.None?
    ensures FieldStagesPass(p) && p.Keys <= FieldNames
  {
    FailureShape(p);
  }

  /** An accepted patch has every value replaced by its normal form. */
  lemma NormalisePatchValues(p: Doc)
    requires NormalisePatch(p).failure.None?
    ensures forall key :: key in p ==> NormalisePatch(p).fields[key] == NormalisedValue(key, p[key])
  {
    forall key | key in p
      ensures NormalisePatch(p).fields[key] == NormalisedValue(key, p[key])
    {
      NormalisedKey(p, key);
    }
  }

  lemma NormalisedKey(p: Doc, key: string)
    requires NormalisePatch(p).failure.None? && key in p
    ensures NormalisePatch(p).fields[key] == NormalisedValue(key, p[key])
  {
    if key == AddressKey {
      NormalisedAddress(p);
    } else {
      NormalisedEarlierKey(p, key);
    }
  }

  /** The address step runs last, on the patch's own address. */
  lemma NormalisedAddress(p: Doc)
    requires NormalisePatch(p).failure.None? && AddressKey in p
    ensures NormalisePatch(p).fields[AddressKey] == NormalisedValue(AddressKey, p[AddressKey])
  {
    StagesPass(p);
    StageInputs(p);
  }

  /** A key other than the address keeps the value its own step gave it. */
  lemma NormalisedEarlierKey(p: Doc, key: string)
    requires NormalisePatch(p).failure.None? && key in p && key != AddressKey
    ensures NormalisePatch(p).fields[key] == NormalisedValue(key, p[key])
  {
    StagesPass(p);
    FieldKeysDistinct();
    var s1 := EmailStage(p);
    var s2 := NameStage(s1.fields, FirstNameKey, First);
    var s3 := NameStage(s2.fields, LastNameKey, Last);
    assert NormalisePatch(p).fields == AddressStage(s3.fields).fields;
    assert NormalisePatch(p).fields[key] == s3.fields[key];
    if key == LastNameKey {
    } else if key == FirstNameKey {
      NormalisedFirstName(p, s1, s2, s3);
    } else {
      NormalisedUntouched(p, key, s1, s2, s3);
    }
  }

  lemma NormalisedFirstName(p: Doc, s1: PatchResult, s2: PatchResult, s3: PatchResult)
    requires FirstNameKey in p
    requires s1 == EmailStage(p) && s2 == NameStage(s1.fields, FirstNameKey, First)
    requires s3 == NameStage(s2.fields, LastNameKey, Last)
    ensures s3.fields[FirstNameKey] == NormalisedValue(FirstNameKey, p[FirstNameKey])
  {
    FieldKeysDistinct();
    assert s3.fields[FirstNameKey] == s2.fields[FirstNameKey];
  }

  lemma NormalisedUntouched(p: Doc, key: string, s1: PatchResult, s2: PatchResult, s3: PatchResult)
    requires key in p && key != FirstNameKey && key != LastNameKey && key != AddressKey
    requires s1 == EmailStage(p) && s2 == NameStage(s1.fields, FirstNameKey, First)
    requires s3 == NameStage(s2.fields, LastNameKey, Last)
    ensures s3.fields[key] == NormalisedValue(key, p[key])
  {
    assert s3.fields[key] == s2.fields[key] == s1.fields[key];
  }

  /** A key that is not a field name is reported only when every known key was
      accepted: an invalid value is reported first. */
  lemma UnknownKeyReportedLast(p: Doc)
    ensures NormalisePatch(p).failure == Some(UnknownKey) <==>
      !(p.Keys <= FieldNames) && forall key :: key in p && key in FieldNames ==> ValueAccepted(key, p[key])
  {
    FailureShape(p);
    FieldStagesPassIff(p);
  }

  /** An update cannot clear an optional field: a blank last name, phone or
      address in the patch is refused. */
  lemma CannotClearOptionalField(p: Doc)
    requires (LastNameKey in p && AllSpace(p[LastNameKey]))
          || (PhoneNumberKey in p && p[PhoneNumberKey] == "")
          || (AddressKey in p && AllSpace(p[AddressKey]))
    ensures NormalisePatch(p).failure.Some?
  {
    NormalisePatchAccepted(p);
    FieldKeysDistinct();
    if LastNameKey in p && AllSpace(p[LastNameKey]) {
      BlankNormalises(p[LastNameKey]);
    }
    if AddressKey in p && AllSpace(p[AddressKey]) {
      BlankNormalises(p[AddressKey]);
    }
  }

  /** An empty patch is accepted and leaves every document as it was. */
  lemma EmptyPatchChangesNothing(entries: seq<Entry>, id: nat)
    ensures NormalisePatch(map[]) == PatchResult(map[], None)
    ensures UpdateById(entries, id, map[]) == entries
  {
    var r := UpdateById(entries, id, map[]);
    forall k | 0 <= k < |entries|
      ensures r[k] == entries[k]
    {
      assert entries[k].doc + map[] == entries[k].doc;
    }
  }

  /** An update checks the format of a new email but not whether another
      document has it, so an accepted update can leave two documents with the
      same email. */
  lemma UpdateCanDuplicateEmail(a: User, b: User)
    requires a.email != b.email && IsLowerCase(b.email) && EmailCheck(b.email) == Pass
    ensures var entries := [Entry(1, ToDict(a)), Entry(2, ToDict(b))];
      var patch := map[EmailKey := b.email];
      && UniqueEmails(entries)
      && NormalisePatch(patch) == PatchResult(patch, None)
      && !UniqueEmails(UpdateById(entries, 1, patch))
  {
    EmailPatchAccepted(b.email);
    TwoRecordsUnique(a, b);
    UpdatedPairClash(a, b);
  }

  /** A record's dictionary holds its email under the email key. */
  lemma DictEmail(u: User)
    ensures EmailKey in ToDict(u) && ToDict(u)[EmailKey] == u.email
  {
  }

  lemma TwoRecordsUnique(a: User, b: User)
    requires a.email != b.email
    ensures UniqueEmails([Entry(1, ToDict(a)), Entry(2, ToDict(b))])
  {
    DictEmail(a);
    DictEmail(b);
  }

  lemma UpdatedPairClash(a: User, b: User)
    ensures !UniqueEmails(UpdateById([Entry(1, ToDict(a)), Entry(2, ToDict(b))], 1, map[EmailKey := b.email]))
  {
    var patch := map[EmailKey := b.email];
    var r := UpdateById([Entry(1, ToDict(a)), Entry(2, ToDict(b))], 1, patch);
    DictEmail(b);
    assert r[0].doc == ToDict(a) + patch;
    assert r[1].doc == ToDict(b);
    assert EmailKey in r[0].doc && r[0].doc[EmailKey] == b.email;
  }

  /** A patch that sets only a valid lower-case email is accepted as it is. */
  lemma EmailPatchAccepted(e: string)
    requires IsLowerCase(e) && EmailCheck(e) == Pass
    ensures NormalisePatch(map[EmailKey := e]) == PatchResult(map[EmailKey := e], None)
  {
    var patch := map[EmailKey := e];
    FieldKeysDistinct();
    LowerSpec(e);
    var s1 := EmailStage(patch);
    assert s1 == PatchResult(patch, None);
    assert NameStage(patch, FirstNameKey, First) == s1;
    assert NameStage(patch, LastNameKey, Last) == s1;
    assert PhoneStage(patch) == s1;
    assert AddressStage(patch) == s1;
    assert patch.Keys <= FieldNames;
  }

  // ----- the caller's patch -----

  /** The dictionary a caller hands to `update_user`, which rewrites its values
      in place. */
  class Patch {
    var fields: Doc

    constructor(fields: Doc)
      ensures this.fields == fields
    {
      this.fields := fields;
    }

    /** `update_user`'s email block: lower-case the value in place, then check it. */
    method NormaliseEmail() returns (failure: Option<StoreError>)
      modifies this
      ensures PatchResult(fields, failure) == EmailStage(old(fields))
    {
      if EmailKey in fields {
        fields := fields[EmailKey := Lower(fields[EmailKey])];
        var ok := CheckEmail(fields[EmailKey]);
        if ok.Fail? {
          return Some(Invalid(ok.error));
        }
      }
      return None;
    }

    /** `update_user`'s name blocks: title-case and strip the value in place,
        then check the result. */
    method NormaliseNameField(key: string, field: NameField) returns (failure: Option<StoreError>)
      requires (key == FirstNameKey && field == First) || (key == LastNameKey && field == Last)
      modifies this
      ensures PatchResult(fields, failure) == NameStage(old(fields), key, field)
    {
      if key in fields {
        fields := fields[key := Users.NormaliseName(fields[key])];
        var ok := CheckName(fields[key], field);
        if ok.Fail? {
          return Some(Invalid(ok.error));
        }
      }
      return None;
    }

    /** `update_user`'s phone block: check the value as it is. */
    method CheckPhoneNumber() returns (failure: Option<StoreError>)
      ensures PatchResult(fields, failure) == PhoneStage(fields)
    {
      if PhoneNumberKey in fields {
        var ok := CheckPhone(fields[PhoneNumberKey]);
        if ok.Fail? {
          return Some(Invalid(ok.error));
        }
      }
      return None;
    }

    /** `update_user`'s address block: strip the value in place, then check it
        and replace it by its reformatted form. */
    method NormaliseAddress() returns (failure: Option<StoreError>)
      modifies this
      ensures PatchResult(fields, failure) == AddressStage(old(fields))
    {
      if AddressKey in fields {
        fields := fields[AddressKey := Strip(fields[AddressKey])];
        var reformatted := CheckAndReformatAddress(fields[AddressKey]);
        if reformatted.Failure? {
          return Some(Invalid(reformatted.error));
        }
        fields := fields[AddressKey := reformatted.value];
      }
      return None;
    }
  }

  // ----- the store -----

  class Store {
    var entries: seq<Entry>
    var nextId: nat

    /** Ids increase in insertion order and stay below the next id. */
    predicate Valid()
      reads this
    {
      IdsIncreasing(entries) && forall k :: 0 <= k < |entries| ==> entries[k].id < nextId
    }

    /** The documents, in insertion order. */
    function Docs(): seq<Doc>
      reads this
    {
      DocsOf(entries)
    }

    /** An empty store. */
    constructor()
      ensures Valid() && entries == [] && nextId == 1
    {
      entries := [];
      nextId := 1;
    }

    /** `_check_user_duplicate`. */
    method CheckUserDuplicate(u: User) returns (r: Outcome<StoreError>)
      ensures r.Fail? <==> EmailTaken(entries, u.email)
      ensures r.Fail? ==> r.error == Duplicate
    {
      if Search(entries, u.email) != [] {
        return Fail(Duplicate);
      }
      return Pass;
    }

    /** `_check_user_exists`. */
    method CheckUserExists(email: string) returns (r: Outcome<StoreError>)
      ensures r.Fail? <==> !EmailTaken(entries, email)
      ensures r.Fail? ==> r.error == NotFound
    {
      if Search(entries, email) == [] {
        return Fail(NotFound);
      }
      return Pass;
    }

    /** `create_user`: refused when the email is taken, otherwise the record's
        dictionary is appended under a fresh id. */
    method CreateUser(u: User) returns (r: Outcome<StoreError>)
      requires Valid()
      modifies this
      ensures Valid()
      ensures r == (if EmailTaken(old(entries), u.email) then Fail(Duplicate) else Pass)
      ensures r.Fail? ==> entries == old(entries) && nextId == old(nextId)
      ensures r.Pass? ==> entries == old(entries) + [Entry(old(nextId), ToDict(u))]
                          && nextId == old(nextId) + 1
      ensures r.Pass? ==> Docs() == old(Docs()) + [ToDict(u)]
    {
      r := CheckUserDuplicate(u);
      if r.Fail? {
        return;
      }
      entries := entries + [Entry(nextId, ToDict(u))];
      nextId := nextId + 1;
    }

    /** `read_users`: every document, in insertion order. */
    method ReadUsers() returns (docs: seq<Doc>)
      ensures |docs| == |entries| && forall k :: 0 <= k < |entries| ==> docs[k] == entries[k].doc
    {
      docs := DocsOf(entries);
    }

    /** `update_user`: refused when no document has the email; otherwise the
        patch is normalised and checked in place, key by key, and if it is
        accepted, merged into the first document with the email. */
    method UpdateUser(email: string, patch: Patch) returns (r: Outcome<StoreError>)
      requires Valid()
      modifies this, patch
      ensures Valid() && nextId == old(nextId)
      ensures !EmailTaken(old(entries), email) ==>
        r == Fail(NotFound) && entries == old(entries) && patch.fields == old(patch.fields)
      ensures EmailTaken(old(entries), email) ==>
        var out := NormalisePatch(old(patch.fields));
        var k := FirstMatch(old(entries), email).value;
        && patch.fields == out.fields
        && (out.failure.Some? ==> r == Fail(out.failure.value) && entries == old(entries))
        && (out.failure.None? ==> r == Pass && entries == UpdateById(old(entries), old(entries)[k].id, out.fields))
    {
      var found := FirstMatch(entries, email);
      if found.None? {
        return Fail(NotFound);
      }
      var docId := entries[found.value].id;

      var failure := patch.NormaliseEmail();
      if failure.Some? {
        return Fail(failure.value);
      }
      failure := patch.NormaliseNameField(FirstNameKey, First);
      if failure.Some? {
        return Fail(failure.value);
      }
      failure := patch.NormaliseNameField(LastNameKey, Last);
      if failure.Some? {
        return Fail(failure.value);
      }
      failure := patch.CheckPhoneNumber();
      if failure.Some? {
        return Fail(failure.value);
      }
      failure := patch.NormaliseAddress();
      if failure.Some? {
        return Fail(failure.value);
      }
      if !(patch.fields.Keys <= FieldNames) {
        return Fail(UnknownKey);
      }

      entries := UpdateById(entries, docId, patch.fields);
      UpdateByIdAt(old(entries), found.value, patch.fields);
      return Pass;
    }

    /** `delete_user`: refused when no document has the email; otherwise the
        first document with the email is removed. */
    method DeleteUser(email: string) returns (r: Outcome<StoreError>)
      requires Valid()
      modifies this
      ensures Valid() && nextId == old(nextId)
      ensures !EmailTaken(old(entries), email) ==> r == Fail(NotFound) && entries == old(entries)
      ensures EmailTaken(old(entries), email) ==>
        var k := FirstMatch(old(entries), email).value;
        r == Pass && entries == old(entries)[..k] + old(entries)[k + 1..]
    {
      r := CheckUserExists(email);
      if r.Fail? {
        return;
      }
      var k := FirstMatch(entries, email).value;
      RemoveByIdAt(entries, k);
      RemoveKeepsIds(entries, k, nextId);
      entries := RemoveById(entries, entries[k].id);
    }
  }
}
