/** GCloudBlobStore (guillotina_gcloudstorage/storage.py): resolving the bucket of a
    container, reconciling the bucket's labels and access policy, and the bucket-level
    listing and deletion calls. Calls into the storage SDK or the HTTP API are inputs. */
module Buckets {
  import opened Common
  import opened Text
  import Retry

  // ---------------------------------------------------------------------------
  // Bucket name resolution
  // ---------------------------------------------------------------------------

  /** The default of the `bucket_name_format` setting, `{container}{delimiter}{base}`,
      spelled from its three fields (see `DefaultFormatText`). */
  const DefaultPieces := [Field("container"), Field("delimiter"), Field("base")]
  const DefaultBucketNameFormat := Spell(DefaultPieces)

  /** The container a request runs in: its id and its optional `bucket_override`. */
  datatype Container = Container(id: string, bucketOverride: Option<string>)

  /** `gcs_bucket_override` is truthy: present and not empty. */
  predicate HasOverride(c: Container) {
    c.bucketOverride.Some? && c.bucketOverride.value != ""
  }

  /** `.` when the base bucket name already holds a dot, `_` otherwise. */
  function Delimiter(base: string): (d: string)
    ensures d == "." <==> '.' in base
    ensures d == "." || d == "_"
  {
    if '.' in base then "." else "_"
  }

  function Prepend(s: string, r: Result<string>): Result<string> {
    match r
    case Success(v) => Success(s + v)
    case Failure(e) => Failure(e)
  }

  /** A field's text followed by the formatted rest; a field that raises ends the format. */
  function Follow(field: Result<string>, rest: Result<string>): Result<string> {
    match field
    case Failure(e) => Failure(e)
    case Success(v) => Prepend(v, rest)
  }

  /** The keyword arguments `get_bucket_name` passes to `format`. */
  predicate KnownField(name: string) {
    name == "container" || name == "delimiter" || name == "base"
  }

  /** The value `format` substitutes for a known field. */
  function FieldValue(name: string, container: string, delimiter: string, base: string): string
    requires KnownField(name)
  {
    if name == "container" then container else if name == "delimiter" then delimiter else base
  }

  /** The length of the text before the first `}`; all of it when there is none. */
  function CloseAt(s: string): (n: nat)
    ensures n <= |s|
    ensures forall i :: 0 <= i < n ==> s[i] != '}'
    ensures n < |s| ==> s[n] == '}'
  {
    if s == [] || s[0] == '}' then 0 else 1 + CloseAt(s[1..])
  }

  /** The characters that end a field's name: a conversion, a format spec, an attribute
      or an index. */
  predicate NameEnd(c: char) {
    c == '!' || c == ':' || c == '.' || c == '['
  }

  /** The name of a replacement field: its text before the first `!`, `:`, `.` or `[`. */
  function FieldName(field: string): (name: string)
    ensures name <= field
    ensures forall i :: 0 <= i < |name| ==> !NameEnd(name[i])
    ensures |name| < |field| ==> NameEnd(field[|name|])
  {
    if field == [] || NameEnd(field[0]) then [] else [field[0]] + FieldName(field[1..])
  }

  /** The value of the field named `name`. There are no positional arguments, so an
      empty or numeric name raises IndexError; a name that is not one of the three
      keywords raises KeyError. */
  function Lookup(name: string, container: string, delimiter: string, base: string): (r: Result<string>)
    ensures r.Success? <==> KnownField(name)
    ensures (name == "" || AllDigits(name)) ==> r == Failure(IndexError)
    ensures name != "" && !AllDigits(name) && !KnownField(name) ==> r == Failure(KeyError(name))
  {
    if name == [] || AllDigits(name) then
      assert !KnownField(name) by {
        if KnownField(name) { KnownFieldPlain(name); }
      }
      Failure(IndexError)
    else if KnownField(name) then Success(FieldValue(name, container, delimiter, base))
    else Failure(KeyError(name))
  }

  /** The text `format` puts in place of one replacement field `{field}`. A field that is
      a name, or a name with the `!s` conversion, is looked up; any other field is
      refused with ValueError. */
  function ReplaceField(field: string, container: string, delimiter: string, base: string): (r: Result<string>)
    ensures r.Success? ==> KnownField(FieldName(field))
    ensures r.Success? ==> r.value == FieldValue(FieldName(field), container, delimiter, base)
  {
    if '{' in field then Failure(ValueError(field))
    else if field == FieldName(field) || field == FieldName(field) + "!s" then Lookup(FieldName(field), container, delimiter, base)
    else Failure(ValueError(field))
  }

  /** `template.format(container=..., delimiter=..., base=...)`, left to right: literal
      text is copied, `{{` and `}}` stand for single braces, a replacement field runs from
      `{` to the next `}`, and a stray `}` or an unclosed `{` raises ValueError. */
  function FormatBucketName(template: string, container: string, delimiter: string, base: string): Result<string>
    decreases |template|
  {
    if template == [] then Success("")
    else if StartsWith(template, "{{") then Prepend("{", FormatBucketName(template[2..], container, delimiter, base))
    else if StartsWith(template, "}}") then Prepend("}", FormatBucketName(template[2..], container, delimiter, base))
    else if template[0] == '}' then Failure(ValueError(template))
    else if template[0] == '{' then
      var n := CloseAt(template[1..]);
      if n == |template| - 1 then Failure(ValueError(template))
      else Follow(ReplaceField(template[1..n + 1], container, delimiter, base),
                  FormatBucketName(template[n + 2..], container, delimiter, base))
    else Prepend([template[0]], FormatBucketName(template[1..], container, delimiter, base))
  }

  /** A piece of a template: literal text, or a replacement field `{name}`. */
  datatype Piece = Literal(text: string) | Field(name: string)

  /** Literal text without braces, or one of the three known fields. */
  predicate SimplePiece(p: Piece) {
    match p
    case Literal(t) => '{' !in t && '}' !in t
    case Field(name) => KnownField(name)
  }

  /** The template text of the pieces. */
  function Spell(ps: seq<Piece>): string {
    if ps == [] then ""
    else (match ps[0] case Literal(t) => t case Field(name) => "{" + name + "}") + Spell(ps[1..])
  }

  /** The bucket name the pieces stand for: each literal as it is, each field replaced by
      its keyword's value. */
  function Rendered(ps: seq<Piece>, container: string, delimiter: string, base: string): string {
    if ps == [] then ""
    else
      (match ps[0]
       case Literal(t) => t
       case Field(name) => if KnownField(name) then FieldValue(name, container, delimiter, base) else "")
      + Rendered(ps[1..], container, delimiter, base)
  }

  /** A template made of literal text and the three known fields formats to the text it
      stands for. */
  lemma {:induction false} FormatRenders(ps: seq<Piece>, container: string, delimiter: string, base: string)
    requires forall i :: 0 <= i < |ps| ==> SimplePiece(ps[i])
    ensures FormatBucketName(Spell(ps), container, delimiter, base) == Success(Rendered(ps, container, delimiter, base))
  {
    if ps != [] {
      var rest := Spell(ps[1..]);
      FormatRenders(ps[1..], container, delimiter, base);
      var r := Rendered(ps[1..], container, delimiter, base);
      match ps[0]
      case Literal(t) =>
        assert Spell(ps) == t + rest;
        assert Rendered(ps, container, delimiter, base) == t + r;
        FormatLiteral(t, rest, container, delimiter, base);
      case Field(name) =>
        assert Spell(ps) == "{" + name + "}" + rest;
        assert Rendered(ps, container, delimiter, base) == FieldValue(name, container, delimiter, base) + r;
        KnownFieldPlain(name);
        FormatField(name, rest, container, delimiter, base);
    }
  }

  /** Literal text without braces is copied as it is. */
  lemma {:induction false} FormatLiteral(t: string, rest: string, container: string, delimiter: string, base: string)
    requires '{' !in t && '}' !in t
    ensures FormatBucketName(t + rest, container, delimiter, base) ==
      Prepend(t, FormatBucketName(rest, container, delimiter, base))
    decreases |t|
  {
    var r := FormatBucketName(rest, container, delimiter, base);
    if t == [] {
      assert t + rest == rest;
      PrependTwice([], [], r);
    } else {
      var s := t + rest;
      assert s[0] == t[0] && s[1..] == t[1..] + rest;
      LiteralStep(s, container, delimiter, base);
      FormatLiteral(t[1..], rest, container, delimiter, base);
      PrependTwice([t[0]], t[1..], r);
      assert [t[0]] + t[1..] == t;
    }
  }

  /** Prepending twice is prepending the two texts together; prepending nothing changes
      nothing. */
  lemma PrependTwice(x: string, y: string, r: Result<string>)
    ensures Prepend(x, Prepend(y, r)) == Prepend(x + y, r)
    ensures Prepend([], r) == r
  {
    if r.Success? {
      assert x + (y + r.value) == (x + y) + r.value;
      assert [] + r.value == r.value;
    }
  }

  /** A character that is not a brace is copied. */
  lemma LiteralStep(s: string, container: string, delimiter: string, base: string)
    requires s != [] && s[0] != '{' && s[0] != '}'
    ensures FormatBucketName(s, container, delimiter, base) ==
      Prepend([s[0]], FormatBucketName(s[1..], container, delimiter, base))
  {
    assert !StartsWith(s, "{{") && !StartsWith(s, "}}") by {
      if |s| >= 2 { assert s[..2][0] == s[0]; }
    }
  }

  /** The three keywords are plain names: no braces, nothing that ends a name, and not
      numeric. */
  lemma KnownFieldPlain(name: string)
    requires KnownField(name)
    ensures '{' !in name && '}' !in name && FieldName(name) == name
    ensures name != "" && !AllDigits(name)
  {
    assert !IsDigit(name[0]);
    assert forall i :: 0 <= i < |name| ==> 'a' <= name[i] <= 'z';
    FieldNameWhole(name);
  }

  /** A field name without `!`, `:`, `.` or `[` is its whole field. */
  lemma FieldNameWhole(name: string)
    requires forall i :: 0 <= i < |name| ==> !NameEnd(name[i])
    ensures FieldName(name) == name
  {
  }

  /** A field `{name}` whose name has no braces and no conversion, spec, attribute or
      index is replaced by the value `Lookup` gives, or raises what it raises. */
  lemma FormatField(name: string, rest: string, container: string, delimiter: string, base: string)
    requires '{' !in name && '}' !in name && FieldName(name) == name
    ensures FormatBucketName("{" + name + "}" + rest, container, delimiter, base) ==
      Follow(Lookup(name, container, delimiter, base), FormatBucketName(rest, container, delimiter, base))
  {
    var s := "{" + name + "}" + rest;
    assert s[1..] == name + "}" + rest;
    CloseAtField(name, rest);
    assert s[1..|name| + 1] == name;
    assert s[|name| + 2..] == rest;
    assert s[1] != '{' by {
      if |name| > 0 { assert s[1] == name[0]; } else { assert s[1] == '}'; }
    }
    FieldStep(s, |name|, container, delimiter, base);
  }

  /** One replacement field, closed by the first `}` after its `{`, then the rest. */
  lemma FieldStep(s: string, n: nat, container: string, delimiter: string, base: string)
    requires |s| >= 2 && s[0] == '{' && s[1] != '{'
    requires n + 1 < |s| && CloseAt(s[1..]) == n
    ensures FormatBucketName(s, container, delimiter, base) ==
      Follow(ReplaceField(s[1..n + 1], container, delimiter, base), FormatBucketName(s[n + 2..], container, delimiter, base))
  {
    assert !StartsWith(s, "{{") && !StartsWith(s, "}}") by {
      assert s[..2][0] == '{' && s[..2][1] == s[1];
    }
  }

  lemma CloseAtField(name: string, rest: string)
    requires '}' !in name
    ensures CloseAt(name + "}" + rest) == |name|
  {
    var s := name + "}" + rest;
    assert forall i :: 0 <= i < |name| ==> s[i] == name[i];
    assert s[|name|] == '}';
  }

  /** A `}` that is not doubled, and a `{` with no `}` after it, raise ValueError. */
  lemma FormatStrayBrace(t: string, container: string, delimiter: string, base: string)
    ensures (t == [] || t[0] != '}') ==> FormatBucketName("}" + t, container, delimiter, base) == Failure(ValueError("}" + t))
    ensures (t == [] || t[0] != '{') && '}' !in t ==> FormatBucketName("{" + t, container, delimiter, base) == Failure(ValueError("{" + t))
  {
    var s := "}" + t;
    if t != [] { assert s[..2][1] == t[0]; }
    var u := "{" + t;
    assert u[1..] == t;
    if t != [] { assert u[..2][1] == t[0]; }
  }

  /** With the default format the bucket name is the lower-cased container id, the
      delimiter and the base name, in that order. */
  lemma DefaultFormat(ps: seq<Piece>, container: string, delimiter: string, base: string)
    requires ps == DefaultPieces
    ensures FormatBucketName(Spell(ps), container, delimiter, base) == Success(container + delimiter + base)
  {
    assert ps[1..][1..] == ps[2..];
    assert Rendered(ps[2..], container, delimiter, base) == base;
    assert Rendered(ps[1..], container, delimiter, base) == delimiter + base;
    assert Rendered(ps, container, delimiter, base) == container + (delimiter + base);
    assert container + (delimiter + base) == container + delimiter + base;
    FormatRenders(ps, container, delimiter, base);
  }

  /** The default format is the text `{container}{delimiter}{base}`. */
  lemma DefaultFormatText()
    ensures DefaultBucketNameFormat == "{container}{delimiter}{base}"
  {
    var ps := DefaultPieces;
    assert ps[1..][1..] == ps[2..];
    assert ps[2..][1..] == [];
    var c, d, b := "{container}", "{delimiter}", "{base}";
    assert Spell(ps[2..]) == b + "";
    assert Spell(ps[1..]) == d + (b + "");
    assert Spell(ps) == c + (d + (b + ""));
  }

  /** What one attempt of `get_bucket_name` learns from the outside world:
      whether the override bucket is reachable (`check_bucket_accessibility`), and how
      `_get_or_create_bucket` ended when it is run (`EnsureBucket` composes that outcome). */
  datatype BucketProbe = BucketProbe(accessible: bool, ensured: Result<()>)

  function InaccessibleOverride(name: string): Fault {
    PreconditionFailed("Bucket " + name + " is not accessible")
  }

  /** One attempt of `get_bucket_name` against the cache as it stands. */
  function ResolveAttempt(c: Container, base: string, template: string, cached: seq<string>, probe: BucketProbe): Result<string> {
    if HasOverride(c) then
      if probe.accessible then Success(c.bucketOverride.value)
      else Failure(InaccessibleOverride(c.bucketOverride.value))
    else
      match FormatBucketName(template, Lower(c.id), Delimiter(base), base)
      case Failure(e) => Failure(e)
      case Success(name) =>
        if name in cached then Success(name)
        else if probe.ensured.Failure? then Failure(probe.ensured.error)
        else Success(name)
  }

  /** `get_bucket_name` with its decorator's ten attempts. */
  function ResolveCall(c: Container, base: string, template: string, cached: seq<string>, probes: nat -> BucketProbe): (Result<string>, nat) {
    Retry.Backoff(Retry.DefaultTries, i => ResolveAttempt(c, base, template, cached, probes(i)))
  }

  /** An override is used as it is or refused; there is no fallback to the naming scheme,
      and the refusal is not retried. */
  lemma OverrideIsFinal(c: Container, base: string, template: string, cached: seq<string>, probes: nat -> BucketProbe)
    requires HasOverride(c)
    ensures ResolveCall(c, base, template, cached, probes) ==
      (if probes(0).accessible then Success(c.bucketOverride.value)
       else Failure(InaccessibleOverride(c.bucketOverride.value)), 1)
  {
    var attempt := i => ResolveAttempt(c, base, template, cached, probes(i));
    assert attempt(0) == ResolveAttempt(c, base, template, cached, probes(0));
    Retry.BackoffSettlesAtFirst(Retry.DefaultTries, attempt, 0);
  }

  /** Without an override and with the default format, the name is
      `{lower(container id)}{delimiter}{base}`; once it is cached, get-or-create is not
      consulted any more. */
  lemma DefaultBucketName(c: Container, base: string, cached: seq<string>, probe: BucketProbe)
    requires !HasOverride(c)
    ensures var name := Lower(c.id) + Delimiter(base) + base;
      && (name in cached ==> ResolveAttempt(c, base, DefaultBucketNameFormat, cached, probe) == Success(name))
      && (name !in cached ==>
            ResolveAttempt(c, base, DefaultBucketNameFormat, cached, probe) ==
            if probe.ensured.Success? then Success(name) else Failure(probe.ensured.error))
  {
    DefaultFormat(DefaultPieces, Lower(c.id), Delimiter(base), base);
  }

  /** The process-wide store of settings and resolved bucket names. */
  class BlobStore {
    const bucketName: string
    const bucketNameFormat: string
    const bucketLabels: map<string, string>
    const uniformBucketLevelAccess: bool
    var cachedBuckets: seq<string>

    constructor (bucket: string, nameFormat: Option<string>, labels: Option<map<string, string>>, uniform: bool)
      ensures bucketName == bucket && bucketNameFormat == nameFormat.GetOr(DefaultBucketNameFormat)
      ensures bucketLabels == labels.GetOr(map[]) && uniformBucketLevelAccess == uniform
      ensures cachedBuckets == []
    {
      bucketName := bucket;
      bucketNameFormat := nameFormat.GetOr(DefaultBucketNameFormat);
      bucketLabels := labels.GetOr(map[]);
      uniformBucketLevelAccess := uniform;
      cachedBuckets := [];
    }

    /** `get_bucket_name`: the cache grows by the resolved name the first time a name
        is resolved through get-or-create, and never otherwise. */
    method GetBucketName(c: Container, probes: nat -> BucketProbe) returns (r: Result<string>, tries: nat)
      modifies this`cachedBuckets
      ensures (r, tries) == ResolveCall(c, bucketName, bucketNameFormat, old(cachedBuckets), probes)
      ensures cachedBuckets ==
        if r.Success? && !HasOverride(c) && r.value !in old(cachedBuckets)
        then old(cachedBuckets) + [r.value] else old(cachedBuckets)
    {
      var cached := cachedBuckets;
      r, tries := Retry.Run(Retry.DefaultTries, i => ResolveAttempt(c, bucketName, bucketNameFormat, cached, probes(i)));
      if r.Success? && !HasOverride(c) && r.value !in cachedBuckets {
        cachedBuckets := cachedBuckets + [r.value];
      }
    }
  }

  // ---------------------------------------------------------------------------
  // _get_or_create_bucket
  // ---------------------------------------------------------------------------

  /** How the bucket was obtained. */
  datatype Origin = Existing | Created | CreatedByRacer

  /** Get the bucket; when it is not found create it; when creation conflicts, another
      process created it in the meantime and it is fetched again. */
  function GetOrCreate(get: Result<()>, create: Result<()>, reget: Result<()>): (r: Result<Origin>)
    ensures r == Success(Existing) <==> get.Success?
    ensures r == Success(Created) <==> get == Failure(ApiNotFound) && create.Success?
    ensures r == Success(CreatedByRacer) <==> get == Failure(ApiNotFound) && create == Failure(ApiConflict) && reget.Success?
    ensures r.Failure? ==> Failure(r.error) == get || Failure(r.error) == create || Failure(r.error) == reget
    ensures get.Failure? && get.error != ApiNotFound ==> r == Failure(get.error)
    ensures get == Failure(ApiNotFound) && create.Failure? && create.error != ApiConflict ==> r == Failure(create.error)
    ensures get == Failure(ApiNotFound) && create == Failure(ApiConflict) && reget.Failure? ==> r == Failure(reget.error)
  {
    if get.Success? then Success(Existing)
    else if get.error != ApiNotFound then Failure(get.error)
    else if create.Success? then Success(Created)
    else if create.error != ApiConflict then Failure(create.error)
    else if reget.Success? then Success(CreatedByRacer)
    else Failure(reget.error)
  }

  /** The labels after `labels["container"] = id.lower()` and `labels.update(configured)`. */
  function ReconciledLabels(labels: map<string, string>, containerId: string, configured: map<string, string>): map<string, string> {
    labels["container" := Lower(containerId)] + configured
  }

  /** The bucket is patched when its labels or its uniform access flag differ. */
  predicate NeedsPatch(labels: map<string, string>, policyOnly: bool, containerId: string, configured: map<string, string>, uniform: bool) {
    ReconciledLabels(labels, containerId, configured) != labels || policyOnly != uniform
  }

  /** What the reconciled labels hold: every configured label, the container label unless
      configuration overrides it, and every other label the bucket had. */
  lemma ReconciledLabelsContent(labels: map<string, string>, containerId: string, configured: map<string, string>)
    ensures var r := ReconciledLabels(labels, containerId, configured);
      && r.Keys == labels.Keys + {"container"} + configured.Keys
      && (forall k :: k in configured ==> r[k] == configured[k])
      && ("container" !in configured ==> r["container"] == Lower(containerId))
      && (forall k :: k in labels && k !in configured && k != "container" ==> r[k] == labels[k])
  {
  }

  /** Reconciling is idempotent: once patched, the same container and configuration ask
      for no further patch. */
  lemma ReconcileIdempotent(labels: map<string, string>, containerId: string, configured: map<string, string>, uniform: bool)
    ensures !NeedsPatch(ReconciledLabels(labels, containerId, configured), uniform, containerId, configured, uniform)
  {
    var once := ReconciledLabels(labels, containerId, configured);
    var twice := ReconciledLabels(once, containerId, configured);
    assert twice.Keys == once.Keys;
    assert forall k :: k in twice ==> twice[k] == once[k];
  }

  /** Conflict, TooManyRequests and ServiceUnavailable from `patch` are left to whoever is
      patching at the same time; Forbidden is logged; anything else propagates. */
  function PatchVerdict(patch: Result<()>): (r: Result<()>)
    ensures r.Failure? <==> patch.Failure? && patch.error !in {ApiConflict, ApiTooManyRequests, ApiServiceUnavailable, ApiForbidden}
    ensures r.Failure? ==> r == patch
  {
    if patch.Success? then Success(())
    else if patch.error in {ApiConflict, ApiTooManyRequests, ApiServiceUnavailable, ApiForbidden} then Success(())
    else Failure(patch.error)
  }

  /** The bucket object as the SDK hands it over: its labels and its
      `iam_configuration.bucket_policy_only_enabled` flag. */
  class Bucket {
    var labels: map<string, string>
    var bucketPolicyOnly: bool

    constructor (labels: map<string, string>, bucketPolicyOnly: bool)
      ensures this.labels == labels && this.bucketPolicyOnly == bucketPolicyOnly
    {
      this.labels := labels;
      this.bucketPolicyOnly := bucketPolicyOnly;
    }

    /** The label and policy part of `_get_or_create_bucket`; `patch` is how `bucket.patch()`
        ends when it is called. */
    method Reconcile(containerId: string, configured: map<string, string>, uniform: bool, patch: Result<()>)
      returns (patched: bool, r: Result<()>)
      modifies this
      ensures patched == NeedsPatch(old(labels), old(bucketPolicyOnly), containerId, configured, uniform)
      ensures patched ==> labels == ReconciledLabels(old(labels), containerId, configured) && bucketPolicyOnly == uniform
      ensures !patched ==> labels == old(labels) && bucketPolicyOnly == old(bucketPolicyOnly)
      ensures r == if patched then PatchVerdict(patch) else Success(())
    {
      var current := labels;
      var original := current;
      current := current["container" := Lower(containerId)];
      current := current + configured;
      patched := original != current || bucketPolicyOnly != uniform;
      if patched {
        bucketPolicyOnly := uniform;
        labels := current;
        r := PatchVerdict(patch);
      } else {
        r := Success(());
      }
    }
  }

  /** How `_get_or_create_bucket` ends: get or create the bucket, then reconcile the labels
      and flag of the bucket obtained (`labels`, `policyOnly`), patching when they change. */
  function EnsureBucket(get: Result<()>, create: Result<()>, reget: Result<()>,
                        labels: map<string, string>, policyOnly: bool, containerId: string,
                        configured: map<string, string>, uniform: bool, patch: Result<()>): (r: Result<()>)
    ensures GetOrCreate(get, create, reget).Failure? ==> r == Failure(GetOrCreate(get, create, reget).error)
    ensures GetOrCreate(get, create, reget).Success? && !NeedsPatch(labels, policyOnly, containerId, configured, uniform) ==>
      r == Success(())
    ensures GetOrCreate(get, create, reget).Success? && NeedsPatch(labels, policyOnly, containerId, configured, uniform) ==>
      r == PatchVerdict(patch)
  {
    match GetOrCreate(get, create, reget)
    case Failure(e) => Failure(e)
    case Success(_) => if NeedsPatch(labels, policyOnly, containerId, configured, uniform) then PatchVerdict(patch) else Success(())
  }

  /** With `ensured` taken from `EnsureBucket`, an uncached bucket name resolves exactly when
      the bucket was found or created and any patch it needed was not refused with a fault
      other than the four tolerated ones; a tolerated refusal does not stop the resolution. */
  lemma ResolveEnsuresBucket(c: Container, base: string, template: string, cached: seq<string>, accessible: bool,
                             get: Result<()>, create: Result<()>, reget: Result<()>,
                             labels: map<string, string>, policyOnly: bool,
                             configured: map<string, string>, uniform: bool, patch: Result<()>)
    requires !HasOverride(c)
    requires FormatBucketName(template, Lower(c.id), Delimiter(base), base).Success?
    requires FormatBucketName(template, Lower(c.id), Delimiter(base), base).value !in cached
    ensures var probe := BucketProbe(accessible, EnsureBucket(get, create, reget, labels, policyOnly, c.id, configured, uniform, patch));
      var r := ResolveAttempt(c, base, template, cached, probe);
      && (r.Success? <==>
           GetOrCreate(get, create, reget).Success? &&
           (NeedsPatch(labels, policyOnly, c.id, configured, uniform) ==>
              patch.Success? || patch.error in {ApiConflict, ApiTooManyRequests, ApiServiceUnavailable, ApiForbidden}))
      && (r.Success? ==> r.value == FormatBucketName(template, Lower(c.id), Delimiter(base), base).value)
  {
  }

  // ---------------------------------------------------------------------------
  // Listing: iterate_bucket_page, get_blobs, iterate_bucket
  // ---------------------------------------------------------------------------

  /** One entry of the `items` list of a listing page. */
  datatype Item = Item(name: Option<string>, bucket: Option<string>, timeCreated: Option<string>, size: Option<string>)

  /** The answer to a listing request: its status and the JSON fields used. */
  datatype Page = Page(status: int, items: Option<seq<Item>>, nextPageToken: Option<string>)

  /** The query parameters of `iterate_bucket_page`. */
  function PageParams(pageToken: Option<string>, prefix: Option<string>, containerId: string): (p: map<string, string>)
    ensures "prefix" in p && p["prefix"] == if prefix.Some? && prefix.value != "" then prefix.value else containerId + "/"
    ensures "pageToken" in p <==> pageToken.Some? && pageToken.value != ""
    ensures "pageToken" in p ==> p["pageToken"] == pageToken.value
    ensures p.Keys <= {"prefix", "pageToken"}
  {
    var params := map["prefix" := if prefix.Some? && prefix.value != "" then prefix.value else containerId + "/"];
    if pageToken.Some? && pageToken.value != "" then params["pageToken" := pageToken.value] else params
  }

  /** `iterate_bucket_page` asserts a 200 answer. */
  function FetchPage(reply: Result<Page>): (r: Result<Page>)
    ensures r.Success? <==> reply.Success? && reply.value.status == 200
  {
    match reply
    case Failure(e) => Failure(e)
    case Success(p) => if p.status == 200 then Success(p) else Failure(AssertionError)
  }

  datatype BlobMetadata = BlobMetadata(name: Option<string>, bucket: Option<string>, createdTime: string, size: nat)

  /** An item that `get_blobs` can convert: a creation time, and a size that `int` reads. */
  predicate WellFormedItem(item: Item) {
    item.timeCreated.Some? && item.size.Some? && ParseInt(item.size.value).Some?
  }

  /** `BlobMetadata(...)` of one item: `parse(None)` and `int(None)` raise TypeError, a size
      that is not a number raises ValueError. The date text is kept as it is. */
  function ToBlob(item: Item): (r: Result<BlobMetadata>)
    ensures r.Success? <==> WellFormedItem(item)
    ensures r.Success? ==> r.value == BlobMetadata(item.name, item.bucket, item.timeCreated.value, ParseInt(item.size.value).value)
  {
    if item.timeCreated.None? then Failure(TypeError)
    else if item.size.None? then Failure(TypeError)
    else match ParseInt(item.size.value)
      case None => Failure(ValueError(item.size.value))
      case Some(n) => Success(BlobMetadata(item.name, item.bucket, item.timeCreated.value, n))
  }

  /** The list comprehension of `get_blobs`, item by item in order. */
  function ToBlobs(items: seq<Item>): (r: Result<seq<BlobMetadata>>)
    ensures r.Success? <==> forall i :: 0 <= i < |items| ==> WellFormedItem(items[i])
    ensures r.Success? ==> |r.value| == |items|
    ensures r.Success? ==> forall i :: 0 <= i < |items| ==>
      r.value[i] == BlobMetadata(items[i].name, items[i].bucket, items[i].timeCreated.value, ParseInt(items[i].size.value).value)
    decreases |items|
  {
    if items == [] then Success([])
    else match ToBlob(items[0])
      case Failure(e) => Failure(e)
      case Success(b) =>
        match ToBlobs(items[1..])
        case Failure(e) => Failure(e)
        case Success(bs) => Success([b] + bs)
  }

  /** `get_blobs`: one page of blob descriptions and the token of the next page. */
  function GetBlobs(reply: Result<Page>): (r: Result<(seq<BlobMetadata>, Option<string>)>)
    ensures FetchPage(reply).Failure? ==> r == Failure(FetchPage(reply).error)
    ensures r.Success? <==>
      (FetchPage(reply).Success? &&
       forall i :: 0 <= i < |reply.value.items.GetOr([])| ==> WellFormedItem(reply.value.items.GetOr([])[i]))
    ensures r.Success? ==> r.value.1 == reply.value.nextPageToken
    ensures r.Success? ==> |r.value.0| == |reply.value.items.GetOr([])|
    ensures r.Success? ==> forall i :: 0 <= i < |r.value.0| ==>
      var item := reply.value.items.GetOr([])[i];
      r.value.0[i] == BlobMetadata(item.name, item.bucket, item.timeCreated.value, ParseInt(item.size.value).value)
  {
    match FetchPage(reply)
    case Failure(e) => Failure(e)
    case Success(p) =>
      match ToBlobs(p.items.GetOr([]))
      case Failure(e) => Failure(e)
      case Success(bs) => Success((bs, p.nextPageToken))
  }

  /** How an enumeration ended. `OutOfPages` means the loop asked for more pages than the
      model was given. */
  datatype ListingEnd = Exhausted | Raised(fault: Fault) | OutOfPages

  /** The items yielded and the `page_token` of every page requested. */
  datatype Listing = Listing(items: seq<Item>, tokens: seq<Option<string>>, end: ListingEnd)

  /** The pages from call number `k` on, following `token`. */
  function FollowTokens(pages: seq<Result<Page>>, k: nat, token: string): Listing
    decreases |pages| - k
  {
    if k >= |pages| then Listing([], [], OutOfPages)
    else match FetchPage(pages[k])
      case Failure(e) => Listing([], [Some(token)], Raised(e))
      case Success(p) =>
        var items := p.items.GetOr([]);
        if |items| == 0 then Listing([], [Some(token)], Exhausted)
        else match p.nextPageToken
          case None => Listing(items, [Some(token)], Exhausted)
          case Some(t) =>
            var rest := FollowTokens(pages, k + 1, t);
            Listing(items + rest.items, [Some(token)] + rest.tokens, rest.end)
  }

  /** What `iterate_bucket` yields when the i-th listing call is answered by `pages[i]`. */
  function IterateSpec(pages: seq<Result<Page>>): Listing {
    if |pages| == 0 then Listing([], [], OutOfPages)
    else match FetchPage(pages[0])
      case Failure(e) => Listing([], [None], Raised(e))
      case Success(p) =>
        if p.items.None? then Listing([], [None], Exhausted)
        else match p.nextPageToken
          case None => Listing(p.items.value, [None], Exhausted)
          case Some(t) =>
            var rest := FollowTokens(pages, 1, t);
            Listing(p.items.value + rest.items, [None] + rest.tokens, rest.end)
  }

  /** `iterate_bucket`: the first page ends the enumeration when it has no `items`; later
      pages end it when they are empty; a page without `nextPageToken` ends it too. */
  method IterateBucket(pages: seq<Result<Page>>) returns (l: Listing)
    ensures l == IterateSpec(pages)
  {
    if |pages| == 0 {
      return Listing([], [], OutOfPages);
    }
    var first := FetchPage(pages[0]);
    if first.Failure? {
      return Listing([], [None], Raised(first.error));
    }
    var data := first.value;
    if data.items.None? {
      return Listing([], [None], Exhausted);
    }
    var items := data.items.value;
    var tokens: seq<Option<string>> := [None];
    var pageToken := data.nextPageToken;
    var k := 1;
    while pageToken.Some?
      invariant 1 <= k <= |pages|
      invariant pageToken.Some? ==>
        var rest := FollowTokens(pages, k, pageToken.value);
        IterateSpec(pages) == Listing(items + rest.items, tokens + rest.tokens, rest.end)
      invariant pageToken.None? ==> IterateSpec(pages) == Listing(items, tokens, Exhausted)
      decreases |pages| - k
    {
      if k == |pages| {
        return Listing(items, tokens, OutOfPages);
      }
      var reply := FetchPage(pages[k]);
      tokens := tokens + [pageToken];
      if reply.Failure? {
        return Listing(items, tokens, Raised(reply.error));
      }
      var page := reply.value.items.GetOr([]);
      if |page| == 0 {
        return Listing(items, tokens, Exhausted);
      }
      items := items + page;
      pageToken := reply.value.nextPageToken;
      k := k + 1;
    }
    return Listing(items, tokens, Exhausted);
  }

  /** A well-behaved listing: every page answers 200 with items, and every page but the
      last carries a next-page token. */
  predicate Chained(pages: seq<Result<Page>>) {
    && |pages| >= 1
    && (forall i :: 0 <= i < |pages| ==>
          && pages[i].Success? && pages[i].value.status == 200
          && pages[i].value.items.Some? && |pages[i].value.items.value| > 0)
    && (forall i :: 0 <= i < |pages| ==> (pages[i].value.nextPageToken.Some? <==> i < |pages| - 1))
  }

  /** The items of pages `k`, `k + 1`, ..., in order. */
  function ItemsFrom(pages: seq<Result<Page>>, k: nat): seq<Item>
    decreases |pages| - k
  {
    if k >= |pages| then []
    else (if pages[k].Success? then pages[k].value.items.GetOr([]) else []) + ItemsFrom(pages, k + 1)
  }

  lemma {:induction false} FollowChained(pages: seq<Result<Page>>, k: nat, token: string)
    requires Chained(pages) && 1 <= k < |pages|
    ensures FollowTokens(pages, k, token) == Listing(ItemsFrom(pages, k), FollowTokens(pages, k, token).tokens, Exhausted)
    ensures |FollowTokens(pages, k, token).tokens| == |pages| - k
    decreases |pages| - k
  {
    if k + 1 < |pages| {
      FollowChained(pages, k + 1, pages[k].value.nextPageToken.value);
    } else {
      assert ItemsFrom(pages, k + 1) == [];
    }
  }

  /** Enumeration termination: over a chained listing, `iterate_bucket` requests every
      page exactly once, yields all their items in order, and stops. */
  lemma IterateChained(pages: seq<Result<Page>>)
    requires Chained(pages)
    ensures IterateSpec(pages).items == ItemsFrom(pages, 0)
    ensures |IterateSpec(pages).tokens| == |pages|
    ensures IterateSpec(pages).end == Exhausted
  {
    if |pages| > 1 {
      FollowChained(pages, 1, pages[0].value.nextPageToken.value);
    } else {
      assert ItemsFrom(pages, 1) == [];
    }
  }

  // ---------------------------------------------------------------------------
  // delete_bucket
  // ---------------------------------------------------------------------------

  /** `delete_bucket`: `bucket.delete(force=True)` raising ValueError (too many objects to
      force-delete) becomes DeleteStorageException; other faults propagate. */
  function DeleteBucket(outcome: Result<()>): (r: Result<()>)
    ensures r.Success? <==> outcome.Success?
    ensures outcome.Failure? && outcome.error.ValueError? ==> r == Failure(DeleteStorage)
    ensures outcome.Failure? && !outcome.error.ValueError? ==> r == outcome
  {
    match outcome
    case Success(_) => Success(())
    case Failure(e) => if e.ValueError? then Failure(DeleteStorage) else Failure(e)
  }
}
