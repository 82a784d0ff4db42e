// A model of the package-name validation performed by the Puffs code
// generator driver (lang/generate/generate.go). A Go string is a sequence of
// bytes; `s[i]` yields a byte, so a name is modelled as a `seq<Byte>`.

module Generate {

  type Byte = b: int | 0 <= b < 256

  /** The bytes of an ASCII string literal, as Go stores it. */
  function Ascii(s: string): (r: seq<Byte>)
    requires forall i :: 0 <= i < |s| ==> s[i] as int < 256
    ensures |r| == |s|
    ensures forall i :: 0 <= i < |s| ==> r[i] == s[i] as int
  {
    seq(|s|, i requires 0 <= i < |s| && s[i] as int < 256 => s[i] as int as Byte)
  }

  const Underscore: Byte := '_' as int

  /** The names the generator reserves for its own output files. */
  const Base: seq<Byte> := Ascii("base")
  const BaseHeader: seq<Byte> := Ascii("base_header")
  const BaseImpl: seq<Byte> := Ascii("base_impl")

  predicate IsUpper(c: Byte) { 'A' as int <= c <= 'Z' as int }
  predicate IsLower(c: Byte) { 'a' as int <= c <= 'z' as int }
  predicate IsDigit(c: Byte) { '0' as int <= c <= '9' as int }

  /** A byte the validator accepts in a package name: an ASCII letter, a digit or `_`. */
  predicate IsNameByte(c: Byte) { IsUpper(c) || IsLower(c) || c == Underscore || IsDigit(c) }

  /** A byte that can appear in an accepted (already lower-cased) package name. */
  predicate IsLowerNameByte(c: Byte) { IsLower(c) || c == Underscore || IsDigit(c) }

  predicate AllNameBytes(s: seq<Byte>) { forall i :: 0 <= i < |s| ==> IsNameByte(s[i]) }

  /** True of the empty name as well, as the scan starts from `true`. */
  predicate AllUnderscores(s: seq<Byte>) { forall i :: 0 <= i < |s| ==> s[i] == Underscore }

  predicate IsReserved(s: seq<Byte>) { s == Base || s == BaseHeader || s == BaseImpl }

  /** ASCII lower-casing of one byte: `A`-`Z` move to `a`-`z`, every other byte stays. */
  function LowerByte(c: Byte): Byte
  {
    if IsUpper(c) then c + ('a' as int - 'A' as int) else c
  }

  /**
   * `strings.ToLower` restricted to the inputs it receives here. It runs only
   * on names made of ASCII letters, digits and `_`, where it is exactly the
   * per-byte ASCII map.
   */
  function ToLower(s: seq<Byte>): (r: seq<Byte>)
    ensures |r| == |s|
    ensures forall i :: 0 <= i < |s| && IsUpper(s[i]) ==> IsLower(r[i]) && r[i] - s[i] == 32
    ensures forall i :: 0 <= i < |s| && !IsUpper(s[i]) ==> r[i] == s[i]
  {
    if s == [] then [] else [LowerByte(s[0])] + ToLower(s[1..])
  }

  /**
   * What `checkPackageName` returns, stated without its loop: the lower-cased
   * name, or the empty name when the input is rejected.
   */
  function Checked(s: seq<Byte>): seq<Byte>
  {
    if !AllNameBytes(s) || AllUnderscores(s) || IsReserved(ToLower(s)) then []
    else ToLower(s)
  }

  /**
   * The scan of `checkPackageName`: one pass over the bytes, leaving early on
   * the first byte outside `[A-Za-z0-9_]` and tracking whether every byte so
   * far was `_`; then lower-casing and the reserved-name test.
   */
  method CheckPackageName(s: seq<Byte>) returns (r: seq<Byte>)
    ensures r == Checked(s)
  {
    var allUnderscores := true;
    var i := 0;
    while i < |s|
      invariant 0 <= i <= |s|
      invariant AllNameBytes(s[..i])
      invariant allUnderscores == AllUnderscores(s[..i])
    {
      var c := s[i];
      if IsUpper(c) || IsLower(c) || c == Underscore || IsDigit(c) {
        allUnderscores := allUnderscores && c == Underscore;
      } else {
        assert !AllNameBytes(s);
        return [];
      }
      assert s[..i + 1] == s[..i] + [c];
      i := i + 1;
    }
    assert s[..i] == s;
    if allUnderscores {
      return [];
    }
    var lowered := ToLower(s);
    if lowered == Base || lowered == BaseHeader || lowered == BaseImpl {
      return [];
    }
    return lowered;
  }

  datatype Error = ProhibitedPackageName(name: seq<Byte>)

  datatype Result<T> = Ok(value: T) | Err(error: Error)

  /**
   * The use `Do` makes of the validator: an empty result is turned into a
   * "prohibited package name" error that quotes the name as given.
   */
  method ValidatePackageNameFlag(packageName: seq<Byte>) returns (res: Result<seq<Byte>>)
    ensures res.Err? <==> !AllNameBytes(packageName) || AllUnderscores(packageName)
                           || IsReserved(ToLower(packageName))
    ensures res.Err? ==> res.error == ProhibitedPackageName(packageName)
    ensures res.Ok? ==> res.value == ToLower(packageName) && res.value != [] && !IsReserved(res.value)
  {
    var pkgName := CheckPackageName(packageName);
    if pkgName == [] {
      return Err(ProhibitedPackageName(packageName));
    }
    return Ok(pkgName);
  }

  // ---------------------------------------------------------------------
  // Properties of the validator

  /** Any byte outside `[A-Za-z0-9_]` makes the name rejected. */
  lemma NonNameByteRejected(s: seq<Byte>, i: int)
    requires 0 <= i < |s| && !IsNameByte(s[i])
    ensures Checked(s) == []
  {
  }

  /** A name made only of underscores is rejected; so is the empty name. */
  lemma AllUnderscoresRejected(s: seq<Byte>)
    requires AllUnderscores(s)
    ensures Checked(s) == []
    ensures Checked([]) == []
  {
  }

  /** The reserved-name test runs after lower-casing, so any spelling of a reserved name is rejected. */
  lemma ReservedRejected(s: seq<Byte>)
    requires IsReserved(ToLower(s))
    ensures Checked(s) == []
  {
  }

  /**
   * A name is accepted exactly when it passes all three tests, and an accepted
   * name comes back lower-cased: same length, with only `A`-`Z` changed, each
   * to its `a`-`z` counterpart.
   */
  lemma AcceptedIff(s: seq<Byte>)
    ensures Checked(s) != [] <==> AllNameBytes(s) && !AllUnderscores(s) && !IsReserved(ToLower(s))
    ensures Checked(s) != [] ==> Checked(s) == ToLower(s) && |Checked(s)| == |s|
    ensures Checked(s) != [] ==>
      forall i :: 0 <= i < |s| ==>
        if IsUpper(s[i]) then Checked(s)[i] == s[i] + 32 else Checked(s)[i] == s[i]
  {
  }

  /** Lower-casing keeps a name byte a name byte, and only `_` maps to `_`. */
  lemma LowerByteClass(c: Byte)
    ensures IsNameByte(c) <==> IsNameByte(LowerByte(c))
    ensures IsNameByte(c) ==> IsLowerNameByte(LowerByte(c))
    ensures c == Underscore <==> LowerByte(c) == Underscore
    ensures IsLower(LowerByte(c)) || IsDigit(LowerByte(c)) || LowerByte(c) == Underscore ==> IsNameByte(c)
  {
  }

  /** Lower-casing a whole name preserves both byte-level tests of the scan. */
  lemma ToLowerKeepsScan(s: seq<Byte>)
    ensures AllNameBytes(s) <==> AllNameBytes(ToLower(s))
    ensures AllUnderscores(s) <==> AllUnderscores(ToLower(s))
  {
  }

  /** An accepted name holds only `[a-z0-9_]` and at least one byte other than `_`. */
  lemma AcceptedAlphabet(s: seq<Byte>)
    requires Checked(s) != []
    ensures forall i :: 0 <= i < |Checked(s)| ==> IsLowerNameByte(Checked(s)[i])
    ensures exists i :: 0 <= i < |Checked(s)| && Checked(s)[i] != Underscore
  {
  }

  /** Lower-casing is idempotent. */
  lemma ToLowerIdempotent(s: seq<Byte>)
    ensures ToLower(ToLower(s)) == ToLower(s)
  {
  }

  /** Feeding an accepted name back to the validator returns it unchanged. */
  lemma Idempotent(s: seq<Byte>)
    requires Checked(s) != []
    ensures Checked(Checked(s)) == Checked(s)
  {
  }

  /** Two names that agree after ASCII lower-casing are treated alike. */
  lemma CaseInsensitive(s1: seq<Byte>, s2: seq<Byte>)
    requires ToLower(s1) == ToLower(s2)
    ensures Checked(s1) == Checked(s2)
  {
  }

  /** The result is never a reserved name, so the caller's empty-means-error test is sound. */
  lemma NeverReserved(s: seq<Byte>)
    ensures !IsReserved(Checked(s))
  {
  }

  /**
   * The reserved names pass the byte scan, so it is the reserved-name test that
   * rejects them, in any case: `"BASE"` and `"Base_Impl"` are refused.
   */
  lemma ReservedSpellingsRejected()
    ensures AllNameBytes(Ascii("BASE")) && !AllUnderscores(Ascii("BASE"))
    ensures Checked(Ascii("BASE")) == []
    ensures Checked(Ascii("Base_Impl")) == []
  {
    var upper, mixed := Ascii("BASE"), Ascii("Base_Impl");
    assert ToLower(upper) == Base;
    assert ToLower(mixed) == BaseImpl;
    ReservedRejected(upper);
    ReservedRejected(mixed);
  }
}
