/** The directory record of the Mongrel2 configuration: the validation run
    before it is saved, and its description.

    The record layer (loading, saving, the error collection's storage) is
    outside the model; validation returns the errors it adds, in order, or
    the exception it raises.
 */
module Directories {
  import opened Wrappers
  import opened Text

  /** A cache TTL as it can reach validation: an integer, or text the
      record could not convert. */
  datatype Ttl = TtlInt(n: int) | TtlText(s: string)

  datatype Directory = Directory(
    base: Option<string>,
    indexFile: Option<string>,
    defaultCtype: Option<string>,
    cacheTtl: Option<Ttl>)

  datatype Field = Base | IndexFile | DefaultCtype | CacheTtl

  type Errors = seq<(Field, string)>

  /** `%p` of a TTL. */
  function InspectTtl(t: Ttl): string {
    match t
    case TtlInt(n) => IntToString(n)
    case TtlText(s) => Inspect(s)
  }

  const MissingBase := "missing or nil"
  const NotPresent := "must not be nil"

  const AbsoluteTail := "shouldn't start with '/'; that will fail when not in chroot."
  const UnterminatedTail := "must end with '/' or it won't work right."

  /** An error about a value: "[<inspected value>]: <complaint>". */
  function Complaint(shown: string, tail: string): string {
    "[" + shown + "]: " + tail
  }

  function AbsoluteBase(base: string): string { Complaint(Inspect(base), AbsoluteTail) }

  function UnterminatedBase(base: string): string { Complaint(Inspect(base), UnterminatedTail) }

  function NegativeTtl(t: Ttl): string { Complaint(InspectTtl(t), "not a positive Integer") }

  /** `validate_base`: a missing base is one error; otherwise a leading '/'
      and a missing trailing '/' are each an error, so one value can earn
      both. */
  function ValidateBase(base: Option<string>): (errs: Errors)
    ensures base.None? ==> errs == [(Base, MissingBase)]
    ensures base.Some? ==>
      ((Base, AbsoluteBase(base.value)) in errs <==> StartsWith(base.value, "/"))
    ensures base.Some? ==>
      ((Base, UnterminatedBase(base.value)) in errs <==> !EndsWith(base.value, "/"))
    ensures forall e :: e in errs ==> e.0 == Base
    ensures base.Some? ==> |errs| == (if StartsWith(base.value, "/") then 1 else 0) + (if EndsWith(base.value, "/") then 0 else 1)
  {
    match base
    case None => [(Base, MissingBase)]
    case Some(b) =>
      BaseMessagesDiffer(b);
      (if StartsWith(b, "/") then [(Base, AbsoluteBase(b))] else [])
      + (if EndsWith(b, "/") then [] else [(Base, UnterminatedBase(b))])
  }

  lemma BaseMessagesDiffer(b: string)
    ensures AbsoluteBase(b) != UnterminatedBase(b)
  {
    assert |AbsoluteTail| != |UnterminatedTail|;
  }

  /** Ruby's `String#strip` whitespace. */
  predicate IsBlankChar(c: char) {
    c in {' ', '\t', '\n', '\U{B}', '\U{C}', '\r', '\0'}
  }

  /** A value fails the presence check when it is missing or only
      whitespace. */
  predicate Blank(v: Option<string>) {
    v.None? || forall i :: 0 <= i < |v.value| ==> IsBlankChar(v.value[i])
  }

  /** `validates_presence( field, :message => "must not be nil" )` */
  function ValidatePresence(f: Field, v: Option<string>): (errs: Errors)
    ensures errs == [] <==> !Blank(v)
    ensures errs != [] ==> errs == [(f, NotPresent)]
  {
    if Blank(v) then [(f, NotPresent)] else []
  }

  /** `Integer( cache_ttl )` */
  function TtlValue(t: Ttl): (r: Result<int>)
    ensures t.TtlInt? ==> r == Ok(t.n)
    ensures t.TtlText? ==> r == ParseInteger(t.s)
  {
    match t
    case TtlInt(n) => Ok(n)
    case TtlText(s) => ParseInteger(s)
  }

  /** `validate_cache_ttl`: no TTL is fine; a TTL that is not an integer
      raises; a negative one is an error; zero and above are fine. */
  function ValidateCacheTtl(ttl: Option<Ttl>): (r: Result<Errors>)
    ensures ttl.None? ==> r == Ok([])
    ensures ttl.Some? ==> (r.Err? <==> TtlValue(ttl.value).Err?)
    ensures ttl.Some? && r.Ok? ==>
      (r.value == [] <==> TtlValue(ttl.value).value >= 0)
    ensures r.Ok? && r.value != [] ==> r.value == [(CacheTtl, NegativeTtl(ttl.value))]
  {
    if ttl.None? then Ok([])
    else
      var n :- TtlValue(ttl.value);
      if n < 0 then Ok([(CacheTtl, NegativeTtl(ttl.value))]) else Ok([])
  }

  /** `validate`: all four checks run and their errors accumulate. */
  function Validate(d: Directory): (r: Result<Errors>)
    ensures d.cacheTtl.Some? && TtlValue(d.cacheTtl.value).Err? ==> r.Err?
    ensures r.Ok? ==>
      (r.value == ValidateBase(d.base)
        + ValidatePresence(IndexFile, d.indexFile)
        + ValidatePresence(DefaultCtype, d.defaultCtype)
        + ValidateCacheTtl(d.cacheTtl).value)
  {
    var ttl :- ValidateCacheTtl(d.cacheTtl);
    Ok(ValidateBase(d.base)
      + ValidatePresence(IndexFile, d.indexFile)
      + ValidatePresence(DefaultCtype, d.defaultCtype)
      + ttl)
  }

  /** A directory is valid exactly when its base is a relative path ending in
      '/', its index file and default content type are present, and its TTL
      is unset or not negative. */
  predicate WellConfigured(d: Directory) {
    && d.base.Some? && !StartsWith(d.base.value, "/") && EndsWith(d.base.value, "/")
    && !Blank(d.indexFile) && !Blank(d.defaultCtype)
    && (d.cacheTtl.Some? ==> TtlValue(d.cacheTtl.value).Ok? && TtlValue(d.cacheTtl.value).value >= 0)
  }

  lemma ValidIffWellConfigured(d: Directory)
    ensures Validate(d) == Ok([]) <==> WellConfigured(d)
  {
  }

  /** Every failing check names its own field, so the errors of different
      fields accumulate side by side. */
  lemma ErrorsOfEachField(d: Directory)
    requires Validate(d).Ok?
    ensures (Base, MissingBase) in Validate(d).value <==> d.base.None?
    ensures (IndexFile, NotPresent) in Validate(d).value <==> Blank(d.indexFile)
    ensures (DefaultCtype, NotPresent) in Validate(d).value <==> Blank(d.defaultCtype)
  {
    var e := Validate(d).value;
    if d.base.Some? {
      assert forall x :: x in ValidateBase(d.base) ==> x.0 == Base;
      assert (Base, MissingBase) !in ValidateBase(d.base);
    }
  }

  /** The absolute base without a trailing slash earns both base errors. */
  lemma BothBaseErrors()
    ensures ValidateBase(Some("/var/www")) == [(Base, AbsoluteBase("/var/www")), (Base, UnterminatedBase("/var/www"))]
  {
    assert StartsWith("/var/www", "/");
    assert !EndsWith("/var/www", "/") by {
      assert "/var/www"[|"/var/www"| - 1] == 'w';
    }
  }

  /** `%d` of the TTL: nil cannot be formatted, and text must be an integer. */
  function FormatTtl(ttl: Option<Ttl>): (r: Result<string>)
    ensures ttl.None? ==> r.Err? && r.error.kind == TypeError
    ensures ttl.Some? && TtlValue(ttl.value).Ok? ==> r == Ok(IntToString(TtlValue(ttl.value).value))
    ensures ttl.Some? ==> (r.Err? <==> TtlValue(ttl.value).Err?)
  {
    if ttl.None? then Fail(TypeError, "can't convert nil into Integer")
    else
      var n :- TtlValue(ttl.value);
      Ok(IntToString(n))
  }

  /** `%s` of an optional string: nil formats as nothing. */
  function FormatText(v: Option<string>): string {
    if v.Some? then v.value else ""
  }

  /** `to_s`: "Directory <base>(<index>) {<ctype>} [cache <ttl>s]". */
  function ToString(d: Directory): (r: Result<string>)
    ensures r.Err? <==> FormatTtl(d.cacheTtl).Err?
    ensures r.Ok? ==> StartsWith(r.value, "Directory " + FormatText(d.base) + "(" + FormatText(d.indexFile) + ") {")
    ensures r.Ok? ==> EndsWith(r.value, "} [cache " + FormatTtl(d.cacheTtl).value + "s]")
    ensures r.Ok? ==> var head := "Directory " + FormatText(d.base) + "(" + FormatText(d.indexFile) + ") {";
      var tail := "} [cache " + FormatTtl(d.cacheTtl).value + "s]";
      |r.value| == |head| + |FormatText(d.defaultCtype)| + |tail|
      && r.value[|head|..|r.value| - |tail|] == FormatText(d.defaultCtype)
  {
    var ttl :- FormatTtl(d.cacheTtl);
    var head := "Directory " + FormatText(d.base) + "(" + FormatText(d.indexFile) + ") {";
    var tail := "} [cache " + ttl + "s]";
    var s := head + FormatText(d.defaultCtype) + tail;
    assert s[..|head|] == head;
    assert s[|s| - |tail|..] == tail;
    assert s[|head|..|s| - |tail|] == FormatText(d.defaultCtype);
    Ok(s)
  }

  /** The TTL text sits between the fixed tail's "} [cache " and "s]". */
  lemma TtlField(s: string, t: string)
    requires EndsWith(s, "} [cache " + t + "s]")
    ensures var tail := "} [cache " + t + "s]"; s[|s| - |tail| + 9..|s| - 2] == t
  {
    var tail := "} [cache " + t + "s]";
    assert s[|s| - |tail|..] == tail;
    assert s[|s| - |tail| + 9..|s| - 2] == tail[9..|tail| - 2];
  }

  /** `s` ends with the TTL field `"} [cache <n>s]"`, and `Integer()` of the
      text inside that field is `n`. */
  predicate ReadsBackTtl(s: string, n: int) {
    var tail := "} [cache " + IntToString(n) + "s]";
    EndsWith(s, tail) && ParseInteger(s[|s| - |tail| + 9..|s| - 2]) == Ok(n)
  }

  lemma TtlReadsBack(s: string, n: int)
    requires EndsWith(s, "} [cache " + IntToString(n) + "s]")
    ensures ReadsBackTtl(s, n)
  {
    TtlField(s, IntToString(n));
    ParseIntegerOfIntToString(n);
  }

  /** The description reads back the TTL it was made from. */
  lemma ToStringTtlRoundTrip(d: Directory, n: int)
    requires d.cacheTtl == Some(TtlInt(n))
    ensures ToString(d).Ok? && ReadsBackTtl(ToString(d).value, n)
  {
    assert FormatTtl(d.cacheTtl) == Ok(IntToString(n));
    TtlReadsBack(ToString(d).value, n);
  }
}
