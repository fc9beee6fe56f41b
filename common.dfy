/** Values shared by every model and router: identifiers, the clock, optional
    request fields, Mongoose's `findById` and the JavaScript rules the routers
    rely on (truthiness of `a || b`, `String.prototype.trim`). */
module Common {

  /** A MongoDB ObjectId, abstracted to a number. */
  type Id = nat

  /** A timestamp in milliseconds, as `Date.now()` returns it. */
  type Time = int

  datatype Option<T> = None | Some(value: T) {
    function GetOr(default: T): T {
      match this
      case Some(v) => v
      case None => default
    }
  }

  datatype Result<T, E> = Ok(value: T) | Err(error: E)

  /** An identifier as it arrives in a request: missing, a string that is not an
      ObjectId, or a well-formed ObjectId. */
  datatype RawId = Absent | Malformed(text: string) | Oid(id: Id)

  /** `validateId` (`mongoose.isValidObjectId`): the raw value is an ObjectId. */
  predicate ValidateId(raw: RawId) {
    raw.Oid?
  }

  /** What Mongoose's `findById`, `findByIdAndUpdate` and `findByIdAndRemove`
      see: a value that cannot be cast throws a CastError, a missing value
      finds nothing, an ObjectId finds the record stored under it, if any. */
  datatype Lookup<T> = Uncastable | NoDoc | Found(id: Id, doc: T)

  function FindById<T>(m: map<Id, T>, raw: RawId): (r: Lookup<T>)
    ensures r.Uncastable? <==> raw.Malformed?
    ensures r.Found? <==> raw.Oid? && raw.id in m
    ensures r.Found? ==> r.id == raw.id && r.doc == m[raw.id]
  {
    match raw
    case Absent => NoDoc
    case Malformed(_) => Uncastable
    case Oid(id) => if id in m then Found(id, m[id]) else NoDoc
  }

  /** A string request field is truthy in `field || fallback` when it is present
      and not empty. */
  predicate Truthy(s: Option<string>) {
    s.Some? && s.value != ""
  }

  /** A number from a JSON body is truthy when it is present and not 0. */
  predicate TruthyNumber(x: Option<real>) {
    x.Some? && x.value != 0.0
  }

  /** `supplied || fallback` for a string field. */
  function Or(supplied: Option<string>, fallback: string): string {
    if Truthy(supplied) then supplied.value else fallback
  }

  /** A character outside the Basic Multilingual Plane, which JavaScript
      stores as a surrogate pair. */
  predicate IsAstral(c: char) {
    c as int > 0xFFFF
  }

  /** `s.length` in JavaScript, which Mongoose's `minLength`/`maxLength`
      compare: UTF-16 code units, two for an astral character. */
  function JsLength(s: string): (n: nat)
    ensures |s| <= n <= 2 * |s|
  {
    if s == [] then 0
    else
      (if IsAstral(s[0]) then 2 else 1) + JsLength(s[1..])
  }

  /** The characters `String.prototype.trim` removes: ECMAScript WhiteSpace
      (TAB, VT, FF, the Zs category, U+FEFF) and LineTerminator. */
  predicate IsSpace(c: char) {
    || c == '\t' || c == '\n' || c == '\U{B}' || c == '\U{C}' || c == '\r'
    || c == ' ' || c == '\U{A0}' || c == '\U{1680}'
    || ('\U{2000}' <= c <= '\U{200A}')
    || c == '\U{2028}' || c == '\U{2029}' || c == '\U{202F}' || c == '\U{205F}'
    || c == '\U{3000}' || c == '\U{FEFF}'
  }

  /** `s` neither starts nor ends with a space character. */
  predicate IsTrimmed(s: string) {
    s == [] || (!IsSpace(s[0]) && !IsSpace(s[|s| - 1]))
  }

  /** The suffix of `s` that remains once its leading spaces are dropped. */
  function TrimStart(s: string): (r: string)
    ensures |r| <= |s| && r == s[|s| - |r|..]
    ensures r == [] || !IsSpace(r[0])
    ensures forall i :: 0 <= i < |s| - |r| ==> IsSpace(s[i])
  {
    if s != [] && IsSpace(s[0]) then TrimStart(s[1..]) else s
  }

  /** The prefix of `s` that remains once its trailing spaces are dropped. */
  function TrimEnd(s: string): (r: string)
    ensures |r| <= |s| && r == s[..|r|]
    ensures r == [] || !IsSpace(r[|r| - 1])
    ensures forall i :: |r| <= i < |s| ==> IsSpace(s[i])
  {
    if s != [] && IsSpace(s[|s| - 1]) then TrimEnd(s[..|s| - 1]) else s
  }

  /** Every character of `s` outside the slice `s[i..j]` is space. */
  predicate SpaceOutside(s: string, i: nat, j: nat)
    requires i <= j <= |s|
  {
    (forall k :: 0 <= k < i ==> IsSpace(s[k])) && (forall k :: j <= k < |s| ==> IsSpace(s[k]))
  }

  /** `s.trim()`: `s` without its leading and trailing spaces. `TrimIsSlice`
      states which slice of `s` that is. */
  function Trim(s: string): (r: string)
    ensures IsTrimmed(r) && |r| <= |s|
  {
    TrimParts(s, TrimStart(s), TrimEnd(TrimStart(s)));
    TrimEnd(TrimStart(s))
  }

  /** `Trim(s)` is the slice of `s` that starts and ends with no space and
      outside of which there is only space; it is empty exactly when `s` is
      all space. */
  lemma TrimIsSlice(s: string)
    ensures exists i: nat, j: nat :: i <= j <= |s| && Trim(s) == s[i..j] && SpaceOutside(s, i, j)
    ensures Trim(s) == [] <==> forall i :: 0 <= i < |s| ==> IsSpace(s[i])
  {
    TrimParts(s, TrimStart(s), TrimEnd(TrimStart(s)));
  }

  /** What dropping the leading spaces (giving `t`), then the trailing ones
      (giving `r`) leaves, from the contracts of `TrimStart` and `TrimEnd`. */
  lemma TrimParts(s: string, t: string, r: string)
    requires |t| <= |s| && t == s[|s| - |t|..] && forall k :: 0 <= k < |s| - |t| ==> IsSpace(s[k])
    requires t == [] || !IsSpace(t[0])
    requires |r| <= |t| && r == t[..|r|] && forall k :: |r| <= k < |t| ==> IsSpace(t[k])
    requires r == [] || !IsSpace(r[|r| - 1])
    ensures IsTrimmed(r)
    ensures exists i: nat, j: nat :: i <= j <= |s| && r == s[i..j] && SpaceOutside(s, i, j)
    ensures r == [] <==> forall i :: 0 <= i < |s| ==> IsSpace(s[i])
  {
    var d := |s| - |t|;
    TrimSlice(s, t, r);
    assert r == s[d..d + |r|] && SpaceOutside(s, d, d + |r|);
    if r == [] {
      // a non-empty `t` starts with a non-space, which `TrimEnd` would keep
      assert t == [];
    } else {
      assert r[0] == t[0] && t[0] == s[d];
    }
  }

  /** The slice `TrimParts` exhibits, from the contracts of `TrimStart` and
      `TrimEnd`. */
  lemma TrimSlice(s: string, t: string, r: string)
    requires |t| <= |s| && t == s[|s| - |t|..] && forall k :: 0 <= k < |s| - |t| ==> IsSpace(s[k])
    requires |r| <= |t| && r == t[..|r|] && forall k :: |r| <= k < |t| ==> IsSpace(t[k])
    ensures r == s[|s| - |t|..|s| - |t| + |r|]
    ensures SpaceOutside(s, |s| - |t|, |s| - |t| + |r|)
  {
    var d := |s| - |t|;
    forall k | d + |r| <= k < |s|
      ensures IsSpace(s[k])
    {
      assert s[k] == t[k - d];
    }
  }

  /** Trimming a string with no surrounding space leaves it unchanged. */
  lemma {:induction false} TrimOfTrimmed(s: string)
    requires IsTrimmed(s)
    ensures Trim(s) == s
  {
    assert TrimStart(s) == s;
    assert TrimEnd(s) == s;
  }

  /** A string without astral characters has as many UTF-16 units as
      characters. */
  lemma {:induction false} JsLengthOfBmp(s: string)
    requires forall i :: 0 <= i < |s| ==> !IsAstral(s[i])
    ensures JsLength(s) == |s|
  {
    if s != [] {
      assert forall i :: 0 <= i < |s[1..]| ==> s[1..][i] == s[i + 1];
      JsLengthOfBmp(s[1..]);
    }
  }

  /** Trimming twice is trimming once. */
  lemma {:induction false} TrimIdempotent(s: string)
    ensures Trim(Trim(s)) == Trim(s)
  {
    TrimOfTrimmed(Trim(s));
  }
}
