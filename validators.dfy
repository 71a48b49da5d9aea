/**
 * The request validators: each schema as the zod schema value it is built
 * from, and, beside it, the accept/reject boundary stated directly over
 * the request body, with a lemma that the two agree on every value.
 */
module Validators {
  import opened Wrappers
  import opened Strings
  import opened Regex
  import opened Zod

  // ---------------------------------------------------------------------------
  // Direct statements of the acceptance rules
  // ---------------------------------------------------------------------------

  /** '+', a digit 1-9, then 1 to 14 more decimal digits, and nothing else. */
  predicate IsPhoneNumber(s: string) {
    && 3 <= |s| <= 16
    && s[0] == '+'
    && '1' <= s[1] <= '9'
    && forall i :: 2 <= i < |s| ==> IsDigit(s[i])
  }

  /** The key is present and holds a string. */
  predicate HasString(f: map<string, Value>, key: string) {
    key in f && f[key].Str?
  }

  /** The key is present and holds a string of lo to hi characters. */
  predicate StringOfLength(f: map<string, Value>, key: string, lo: nat, hi: nat) {
    HasString(f, key) && lo <= |f[key].s| <= hi
  }

  predicate UuidAt(f: map<string, Value>, key: string, rec: Recognisers) {
    HasString(f, key) && rec.isUuid(f[key].s)
  }

  predicate UrlAt(f: map<string, Value>, key: string, rec: Recognisers) {
    HasString(f, key) && rec.isUrl(f[key].s)
  }

  /** The key is present and holds a whole number from lo to hi. */
  predicate IntegerAt(f: map<string, Value>, key: string, lo: int, hi: int) {
    key in f && f[key].Num? && IsInteger(f[key].x) && lo as real <= f[key].x <= hi as real
  }

  /** The key is present and holds a non-empty array of strings. */
  predicate NonEmptyStringsAt(f: map<string, Value>, key: string) {
    key in f && f[key].Arr? && |f[key].items| >= 1
    && forall i :: 0 <= i < |f[key].items| ==> f[key].items[i].Str?
  }

  // ---------------------------------------------------------------------------
  // phoneNumberSchema
  // ---------------------------------------------------------------------------

  /** `^\+[1-9]\d{1,14}$` */
  const PhonePattern: Pattern := [Piece(Lit('+'), 1, 1), Piece(Range('1', '9'), 1, 1), Piece(Range('0', '9'), 1, 14)]

  const PhoneNumberSchema: Schema := ZString([Matches(PhonePattern)])

  /** The phone pattern matches exactly the strings IsPhoneNumber describes. */
  lemma PhonePatternMatches(s: string)
    ensures FullMatch(PhonePattern, s) <==> IsPhoneNumber(s)
  {
    var digits := Piece(Range('0', '9'), 1, 14);
    assert PhonePattern == [Piece(Lit('+'), 1, 1)] + ([Piece(Range('1', '9'), 1, 1)] + [digits]);
    OnceThen(Lit('+'), [Piece(Range('1', '9'), 1, 1)] + [digits], s);
    if s != [] {
      OnceThen(Range('1', '9'), [digits], s[1..]);
      if |s| >= 2 {
        RepeatMatch(Range('0', '9'), 1, 14, s[2..]);
        assert s[1..][1..] == s[2..];
        assert AllIn(Range('0', '9'), s[2..]) <==> forall i :: 2 <= i < |s| ==> IsDigit(s[i]) by {
          forall i | 2 <= i < |s| ensures s[i] == s[2..][i - 2] {}
        }
      }
    }
  }

  /** A phone number is accepted iff it is a string that IsPhoneNumber describes. */
  lemma PhoneNumberSchemaAccepts(v: Value, rec: Recognisers)
    ensures Accepts(PhoneNumberSchema, Some(v), rec) <==> v.Str? && IsPhoneNumber(v.s)
  {
    if v.Str? {
      PhonePatternMatches(v.s);
      assert PhoneNumberSchema.checks[0] == Matches(PhonePattern);
    }
  }

  // ---------------------------------------------------------------------------
  // How the schema pieces used below accept a field
  // ---------------------------------------------------------------------------

  /** An object is accepted field by field. */
  lemma ObjectAccepts(field: Field, rest: seq<Field>, f: map<string, Value>, rec: Recognisers)
    ensures Accepts(ZObject([field] + rest), Some(Obj(f)), rec) <==>
            Accepts(field.schema, Get(f, field.key), rec) && Accepts(ZObject(rest), Some(Obj(f)), rec)
  {
    var shape := [field] + rest;
    assert shape[0] == field;
    assert forall i :: 0 <= i < |rest| ==> shape[i + 1] == rest[i];
    if Accepts(field.schema, Get(f, field.key), rec) && Accepts(ZObject(rest), Some(Obj(f)), rec) {
      forall i | 0 <= i < |shape| ensures Accepts(shape[i].schema, Get(f, shape[i].key), rec) {
        if i > 0 {
          assert shape[i] == rest[i - 1];
        }
      }
    }
  }

  lemma UuidField(f: map<string, Value>, key: string, rec: Recognisers)
    ensures Accepts(ZString([Uuid]), Get(f, key), rec) <==> UuidAt(f, key, rec)
  {
    assert [Uuid][0] == Uuid;
  }

  lemma UrlField(f: map<string, Value>, key: string, rec: Recognisers)
    ensures Accepts(ZString([Url]), Get(f, key), rec) <==> UrlAt(f, key, rec)
  {
    assert [Url][0] == Url;
  }

  lemma LengthField(f: map<string, Value>, key: string, lo: nat, hi: nat, rec: Recognisers)
    ensures Accepts(ZString([MinLength(lo), MaxLength(hi)]), Get(f, key), rec) <==> StringOfLength(f, key, lo, hi)
  {
    var checks := [MinLength(lo), MaxLength(hi)];
    assert checks[0] == MinLength(lo) && checks[1] == MaxLength(hi);
  }

  /** An optional field is accepted when missing, and otherwise as its inner schema accepts it. */
  lemma OptionalField(inner: Schema, f: map<string, Value>, key: string, rec: Recognisers)
    ensures Accepts(ZOptional(inner), Get(f, key), rec) <==> key !in f || Accepts(inner, Get(f, key), rec)
  {
  }

  /** Whether the field's own schema accepts what the object holds under its key. */
  predicate FieldAccepts(field: Field, f: map<string, Value>, rec: Recognisers) {
    Accepts(field.schema, Get(f, field.key), rec)
  }

  lemma ObjectAccepts2(a: Field, b: Field, f: map<string, Value>, rec: Recognisers)
    ensures Accepts(ZObject([a, b]), Some(Obj(f)), rec) <==> FieldAccepts(a, f, rec) && FieldAccepts(b, f, rec)
  {
    assert [a, b] == [a] + [b] && [b] == [b] + [];
    ObjectAccepts(a, [b], f, rec);
    ObjectAccepts(b, [], f, rec);
  }

  lemma ObjectAccepts4(a: Field, b: Field, c: Field, d: Field, f: map<string, Value>, rec: Recognisers)
    ensures Accepts(ZObject([a, b, c, d]), Some(Obj(f)), rec) <==>
            FieldAccepts(a, f, rec) && FieldAccepts(b, f, rec) && FieldAccepts(c, f, rec) && FieldAccepts(d, f, rec)
  {
    assert [a, b, c, d] == [a] + [b, c, d] && [b, c, d] == [b] + [c, d];
    ObjectAccepts(a, [b, c, d], f, rec);
    ObjectAccepts(b, [c, d], f, rec);
    ObjectAccepts2(c, d, f, rec);
  }

  lemma ObjectAccepts5(a: Field, b: Field, c: Field, d: Field, e: Field, f: map<string, Value>, rec: Recognisers)
    ensures Accepts(ZObject([a, b, c, d, e]), Some(Obj(f)), rec) <==>
            FieldAccepts(a, f, rec) && FieldAccepts(b, f, rec) && FieldAccepts(c, f, rec)
            && FieldAccepts(d, f, rec) && FieldAccepts(e, f, rec)
  {
    assert [a, b, c, d, e] == [a] + [b, c, d, e];
    ObjectAccepts(a, [b, c, d, e], f, rec);
    ObjectAccepts4(b, c, d, e, f, rec);
  }

  // ---------------------------------------------------------------------------
  // verifyPhoneSchema
  // ---------------------------------------------------------------------------

  const PhoneField: Field := Field("phone_number", PhoneNumberSchema)
  const CodeField: Field := Field("verification_code", ZOptional(ZString([Length(6)])))

  const VerifyPhoneSchema: Schema := ZObject([PhoneField, CodeField])

  /** A valid phone number, and a verification code of exactly six characters if one is given. */
  predicate IsVerifyPhoneRequest(v: Value) {
    && v.Obj?
    && HasString(v.fields, "phone_number") && IsPhoneNumber(v.fields["phone_number"].s)
    && ("verification_code" in v.fields ==> StringOfLength(v.fields, "verification_code", 6, 6))
  }

  lemma PhoneFieldAccepts(f: map<string, Value>, rec: Recognisers)
    ensures FieldAccepts(PhoneField, f, rec) <==> HasString(f, "phone_number") && IsPhoneNumber(f["phone_number"].s)
  {
    if "phone_number" in f {
      PhoneNumberSchemaAccepts(f["phone_number"], rec);
    }
  }

  lemma CodeFieldAccepts(f: map<string, Value>, rec: Recognisers)
    ensures FieldAccepts(CodeField, f, rec) <==>
            ("verification_code" in f ==> StringOfLength(f, "verification_code", 6, 6))
  {
    assert [Length(6)][0] == Length(6);
  }

  lemma VerifyPhoneSchemaAccepts(v: Value, rec: Recognisers)
    ensures Accepts(VerifyPhoneSchema, Some(v), rec) <==> IsVerifyPhoneRequest(v)
  {
    if v.Obj? {
      ObjectAccepts2(PhoneField, CodeField, v.fields, rec);
      PhoneFieldAccepts(v.fields, rec);
      CodeFieldAccepts(v.fields, rec);
    }
  }

  /** `null` is not `undefined`: an explicit null verification code is refused. */
  lemma VerifyPhoneRefusesNullCode(rec: Recognisers)
    ensures Accepts(VerifyPhoneSchema, Some(Obj(map["phone_number" := Str("+15551234567")])), rec)
    ensures !Accepts(VerifyPhoneSchema, Some(Obj(map["phone_number" := Str("+15551234567"), "verification_code" := Null])), rec)
  {
    var ok := map["phone_number" := Str("+15551234567")];
    var withNull := ok["verification_code" := Null];
    assert withNull == map["phone_number" := Str("+15551234567"), "verification_code" := Null];
    assert IsPhoneNumber("+15551234567");
    VerifyPhoneSchemaAccepts(Obj(ok), rec);
    CodeFieldAccepts(withNull, rec);
    ObjectAccepts2(PhoneField, CodeField, withNull, rec);
  }

  // ---------------------------------------------------------------------------
  // transcribeSchema, findMatchSchema, startCallSchema: identifiers only
  // ---------------------------------------------------------------------------

  const TranscribeSchema: Schema := ZObject([
    Field("voice_clip_id", ZString([Uuid])),
    Field("audio_url", ZString([Url]))
  ])

  predicate IsTranscribeRequest(v: Value, rec: Recognisers) {
    v.Obj? && UuidAt(v.fields, "voice_clip_id", rec) && UrlAt(v.fields, "audio_url", rec)
  }

  lemma TranscribeSchemaAccepts(v: Value, rec: Recognisers)
    ensures Accepts(TranscribeSchema, Some(v), rec) <==> IsTranscribeRequest(v, rec)
  {
    if v.Obj? {
      ObjectAccepts2(Field("voice_clip_id", ZString([Uuid])), Field("audio_url", ZString([Url])), v.fields, rec);
      UuidField(v.fields, "voice_clip_id", rec);
      UrlField(v.fields, "audio_url", rec);
    }
  }

  const FindMatchSchema: Schema := ZObject([
    Field("user_id", ZString([Uuid])),
    Field("voice_clip_id", ZString([Uuid]))
  ])

  predicate IsFindMatchRequest(v: Value, rec: Recognisers) {
    v.Obj? && UuidAt(v.fields, "user_id", rec) && UuidAt(v.fields, "voice_clip_id", rec)
  }

  lemma FindMatchSchemaAccepts(v: Value, rec: Recognisers)
    ensures Accepts(FindMatchSchema, Some(v), rec) <==> IsFindMatchRequest(v, rec)
  {
    if v.Obj? {
      ObjectAccepts2(Field("user_id", ZString([Uuid])), Field("voice_clip_id", ZString([Uuid])), v.fields, rec);
      UuidField(v.fields, "user_id", rec);
      UuidField(v.fields, "voice_clip_id", rec);
    }
  }

  const StartCallSchema: Schema := ZObject([
    Field("match_id", ZString([Uuid])),
    Field("user_id", ZString([Uuid]))
  ])

  predicate IsStartCallRequest(v: Value, rec: Recognisers) {
    v.Obj? && UuidAt(v.fields, "match_id", rec) && UuidAt(v.fields, "user_id", rec)
  }

  lemma StartCallSchemaAccepts(v: Value, rec: Recognisers)
    ensures Accepts(StartCallSchema, Some(v), rec) <==> IsStartCallRequest(v, rec)
  {
    if v.Obj? {
      ObjectAccepts2(Field("match_id", ZString([Uuid])), Field("user_id", ZString([Uuid])), v.fields, rec);
      UuidField(v.fields, "match_id", rec);
      UuidField(v.fields, "user_id", rec);
    }
  }

  // ---------------------------------------------------------------------------
  // vectorizeSchema
  // ---------------------------------------------------------------------------

  const VectorizeSchema: Schema := ZObject([
    Field("voice_clip_id", ZString([Uuid])),
    Field("transcription", ZString([MinLength(1), MaxLength(5000)]))
  ])

  predicate IsVectorizeRequest(v: Value, rec: Recognisers) {
    v.Obj? && UuidAt(v.fields, "voice_clip_id", rec) && StringOfLength(v.fields, "transcription", 1, 5000)
  }

  lemma VectorizeSchemaAccepts(v: Value, rec: Recognisers)
    ensures Accepts(VectorizeSchema, Some(v), rec) <==> IsVectorizeRequest(v, rec)
  {
    if v.Obj? {
      ObjectAccepts2(Field("voice_clip_id", ZString([Uuid])),
                     Field("transcription", ZString([MinLength(1), MaxLength(5000)])), v.fields, rec);
      UuidField(v.fields, "voice_clip_id", rec);
      LengthField(v.fields, "transcription", 1, 5000, rec);
    }
  }

  // ---------------------------------------------------------------------------
  // createEchoSchema
  // ---------------------------------------------------------------------------

  const CreateEchoSchema: Schema := ZObject([
    Field("call_id", ZString([Uuid])),
    Field("user_id", ZString([Uuid])),
    Field("summary", ZString([MinLength(1), MaxLength(100)])),
    Field("full_transcript", ZOptional(ZString([])))
  ])

  /** Two ids, a summary of 1 to 100 characters, and any string as transcript if one is given. */
  predicate IsCreateEchoRequest(v: Value, rec: Recognisers) {
    && v.Obj?
    && UuidAt(v.fields, "call_id", rec) && UuidAt(v.fields, "user_id", rec)
    && StringOfLength(v.fields, "summary", 1, 100)
    && ("full_transcript" in v.fields ==> HasString(v.fields, "full_transcript"))
  }

  lemma CreateEchoSchemaAccepts(v: Value, rec: Recognisers)
    ensures Accepts(CreateEchoSchema, Some(v), rec) <==> IsCreateEchoRequest(v, rec)
  {
    if v.Obj? {
      var f := v.fields;
      ObjectAccepts4(Field("call_id", ZString([Uuid])), Field("user_id", ZString([Uuid])),
                     Field("summary", ZString([MinLength(1), MaxLength(100)])),
                     Field("full_transcript", ZOptional(ZString([]))), f, rec);
      UuidField(f, "call_id", rec);
      UuidField(f, "user_id", rec);
      LengthField(f, "summary", 1, 100, rec);
    }
  }

  // ---------------------------------------------------------------------------
  // createForumPostSchema
  // ---------------------------------------------------------------------------

  const ForumCategories: seq<string> := ["tips", "stories", "support", "feedback"]

  const CreateForumPostSchema: Schema := ZObject([
    Field("user_id", ZString([Uuid])),
    Field("title", ZString([MinLength(5), MaxLength(200)])),
    Field("body", ZString([MinLength(10), MaxLength(10000)])),
    Field("category", ZEnum(ForumCategories))
  ])

  predicate IsForumCategory(s: string) {
    s == "tips" || s == "stories" || s == "support" || s == "feedback"
  }

  /** An author id, a title of 5 to 200 characters, a body of 10 to 10000, and a known category. */
  predicate IsCreateForumPostRequest(v: Value, rec: Recognisers) {
    && v.Obj?
    && UuidAt(v.fields, "user_id", rec)
    && StringOfLength(v.fields, "title", 5, 200)
    && StringOfLength(v.fields, "body", 10, 10000)
    && HasString(v.fields, "category") && IsForumCategory(v.fields["category"].s)
  }

  lemma CategoryField(f: map<string, Value>, rec: Recognisers)
    ensures Accepts(ZEnum(ForumCategories), Get(f, "category"), rec) <==>
            HasString(f, "category") && IsForumCategory(f["category"].s)
  {
  }

  lemma CreateForumPostSchemaAccepts(v: Value, rec: Recognisers)
    ensures Accepts(CreateForumPostSchema, Some(v), rec) <==> IsCreateForumPostRequest(v, rec)
  {
    if v.Obj? {
      var f := v.fields;
      ObjectAccepts4(Field("user_id", ZString([Uuid])), Field("title", ZString([MinLength(5), MaxLength(200)])),
                     Field("body", ZString([MinLength(10), MaxLength(10000)])),
                     Field("category", ZEnum(ForumCategories)), f, rec);
      UuidField(f, "user_id", rec);
      LengthField(f, "title", 5, 200, rec);
      LengthField(f, "body", 10, 10000, rec);
      CategoryField(f, rec);
    }
  }

  // ---------------------------------------------------------------------------
  // updateUserProfileSchema
  // ---------------------------------------------------------------------------

  const Genders: seq<string> := ["male", "female", "non-binary", "other"]

  predicate IsGender(s: string) {
    s == "male" || s == "female" || s == "non-binary" || s == "other"
  }

  /** Every field may be missing; each one that is present obeys its own rule. */
  predicate IsUpdateUserProfileRequest(v: Value) {
    && v.Obj?
    && ("display_name" in v.fields ==> StringOfLength(v.fields, "display_name", 2, 50))
    && ("bio" in v.fields ==> StringOfLength(v.fields, "bio", 0, 500))
    && ("age" in v.fields ==> IntegerAt(v.fields, "age", 18, 120))
    && ("gender" in v.fields ==> HasString(v.fields, "gender") && IsGender(v.fields["gender"].s))
    && ("preferred_languages" in v.fields ==> NonEmptyStringsAt(v.fields, "preferred_languages"))
  }

  const DisplayNameField: Field := Field("display_name", ZOptional(ZString([MinLength(2), MaxLength(50)])))
  const BioField: Field := Field("bio", ZOptional(ZString([MaxLength(500)])))
  const AgeField: Field := Field("age", ZOptional(ZNumber([Int, AtLeast(18.0), AtMost(120.0)])))
  const GenderField: Field := Field("gender", ZOptional(ZEnum(Genders)))
  const LanguagesField: Field := Field("preferred_languages", ZOptional(ZArray(ZString([]), 1)))

  const UpdateUserProfileSchema: Schema :=
    ZObject([DisplayNameField, BioField, AgeField, GenderField, LanguagesField])

  lemma DisplayNameFieldAccepts(f: map<string, Value>, rec: Recognisers)
    ensures FieldAccepts(DisplayNameField, f, rec) <==>
            ("display_name" in f ==> StringOfLength(f, "display_name", 2, 50))
  {
    LengthField(f, "display_name", 2, 50, rec);
  }

  lemma BioFieldAccepts(f: map<string, Value>, rec: Recognisers)
    ensures FieldAccepts(BioField, f, rec) <==> ("bio" in f ==> StringOfLength(f, "bio", 0, 500))
  {
    assert [MaxLength(500)][0] == MaxLength(500);
  }

  lemma AgeFieldAccepts(f: map<string, Value>, rec: Recognisers)
    ensures FieldAccepts(AgeField, f, rec) <==> ("age" in f ==> IntegerAt(f, "age", 18, 120))
  {
    var checks := [Int, AtLeast(18.0), AtMost(120.0)];
    assert checks[0] == Int && checks[1] == AtLeast(18.0) && checks[2] == AtMost(120.0);
  }

  lemma GenderFieldAccepts(f: map<string, Value>, rec: Recognisers)
    ensures FieldAccepts(GenderField, f, rec) <==>
            ("gender" in f ==> HasString(f, "gender") && IsGender(f["gender"].s))
  {
  }

  lemma LanguagesFieldAccepts(f: map<string, Value>, rec: Recognisers)
    ensures FieldAccepts(LanguagesField, f, rec) <==>
            ("preferred_languages" in f ==> NonEmptyStringsAt(f, "preferred_languages"))
  {
  }

  lemma UpdateUserProfileSchemaAccepts(v: Value, rec: Recognisers)
    ensures Accepts(UpdateUserProfileSchema, Some(v), rec) <==> IsUpdateUserProfileRequest(v)
  {
    if v.Obj? {
      var f := v.fields;
      ObjectAccepts5(DisplayNameField, BioField, AgeField, GenderField, LanguagesField, f, rec);
      DisplayNameFieldAccepts(f, rec);
      BioFieldAccepts(f, rec);
      AgeFieldAccepts(f, rec);
      GenderFieldAccepts(f, rec);
      LanguagesFieldAccepts(f, rec);
    }
  }

  /** The empty object is a valid profile update. */
  lemma UpdateUserProfileAcceptsEmpty(rec: Recognisers)
    ensures Accepts(UpdateUserProfileSchema, Some(Obj(map[])), rec)
  {
    UpdateUserProfileSchemaAccepts(Obj(map[]), rec);
  }

  /** An age must be a whole number: 30.5 is refused where 30 is accepted. */
  lemma UpdateUserProfileAgeIsWhole(rec: Recognisers)
    ensures Accepts(UpdateUserProfileSchema, Some(Obj(map["age" := Num(30.0)])), rec)
    ensures !Accepts(UpdateUserProfileSchema, Some(Obj(map["age" := Num(30.5)])), rec)
  {
    UpdateUserProfileSchemaAccepts(Obj(map["age" := Num(30.0)]), rec);
    UpdateUserProfileSchemaAccepts(Obj(map["age" := Num(30.5)]), rec);
  }
}
