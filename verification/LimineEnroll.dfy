/** The signature search of `enroll_config`, whose index moves backwards after a failed match. */
module LimineEnroll {
  import opened Bytes

  /** The bytes reserved for the checksum behind the signature. */
  const FIELD := 128

  predicate MatchesAt(text: seq<byte>, sig: seq<byte>, start: nat)
  {
    start + |sig| <= |text| && text[start..start + |sig|] == sig
  }

  /** The loop bound: the last byte of an occurrence has to be below it. */
  function Limit(text: seq<byte>, sig: seq<byte>): int { |text| - (|sig| + FIELD) + 1 }

  lemma Mismatch(text: seq<byte>, sig: seq<byte>, start: nat, k: nat)
    requires k < |sig| && start + k < |text| && text[start + k] != sig[k]
    ensures !MatchesAt(text, sig, start)
  {
    if start + |sig| <= |text| {
      assert text[start..start + |sig|][k] == text[start + k];
    }
  }

  lemma MatchGrows(text: seq<byte>, sig: seq<byte>, i: nat, checked: nat)
    requires checked < |sig| && checked <= i < |text|
    requires text[i - checked..i] == sig[..checked] && text[i] == sig[checked]
    ensures text[i - checked..i + 1] == sig[..checked + 1]
    ensures checked + 1 == |sig| ==> MatchesAt(text, sig, i - checked)
  {
    assert text[i - checked..i + 1] == text[i - checked..i] + [text[i]];
    assert sig[..checked + 1] == sig[..checked] + [sig[checked]];
    assert checked + 1 == |sig| ==> sig[..checked + 1] == sig;
  }

  /**
  The right result: the end of the first occurrence, if its last byte is below the bound, or None if no
  occurrence is.
  */
  ghost predicate Found(text: seq<byte>, sig: seq<byte>, loc: Option<nat>)
  {
    match loc
    case Some(end) =>
      && |sig| <= end <= Limit(text, sig) && MatchesAt(text, sig, end - |sig|)
      && forall s :: 0 <= s < end - |sig| ==> !MatchesAt(text, sig, s)
    case None => forall s :: 0 <= s <= Limit(text, sig) - |sig| ==> !MatchesAt(text, sig, s)
  }

  /** The search of `enroll_config`: the position behind the signature, or None. */
  method FindSignature(text: seq<byte>, sig: seq<byte>) returns (loc: Option<nat>)
    requires 0 < |sig| && |sig| + FIELD <= |text|
    ensures Found(text, sig, loc)
  {
    hide MatchesAt;
    var i, checked := 0, 0;
    while i < |text| - (|sig| + FIELD) + 1
      invariant 0 <= checked < |sig| && checked <= i <= Limit(text, sig)
      invariant text[i - checked..i] == sig[..checked]
      invariant forall s :: 0 <= s < i - checked ==> !MatchesAt(text, sig, s)
      decreases Limit(text, sig) - (i - checked), |sig| - checked
    {
      if text[i] != sig[checked] {
        Mismatch(text, sig, i - checked, checked);
        if checked > 0 {
          i := i - checked;
          checked := 0;
        }
      } else {
        MatchGrows(text, sig, i, checked);
        checked := checked + 1;
        if checked == |sig| {
          return Some(i + 1);
        }
      }
      i := i + 1;
    }
    return None;
  }

  /**
  The bound is |sig| - 1 positions short: a first occurrence that fits, field and all, is found exactly if
  it starts that much before the last fitting position.
  */
  lemma FittingSignatureFoundIff(text: seq<byte>, sig: seq<byte>, start: nat, loc: Option<nat>)
    requires 0 < |sig| && start + |sig| + 128 <= |text| && text[start..start + |sig|] == sig
    requires forall s :: 0 <= s < start ==> !MatchesAt(text, sig, s)
    requires Found(text, sig, loc)
    ensures loc == Some(start + |sig|) <==> start + |sig| + 128 + (|sig| - 1) <= |text|
  {
    assert MatchesAt(text, sig, start);
    if loc.Some? && start + |sig| <= Limit(text, sig) {
      assert !(start < loc.value - |sig|);
    }
  }

  /** A text of just the signature and its field is rejected. */
  lemma MissedSignature(sig: seq<byte>, field: seq<byte>, loc: Option<nat>)
    requires 1 < |sig| && |field| == 128 && Found(sig + field, sig, loc)
    ensures loc == None
  {
    assert (sig + field)[0..|sig|] == sig;
  }
}
