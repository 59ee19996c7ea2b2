/**
  The sync code: a user-chosen or generated identifier that links devices.
  It lives in local storage under `pangrum-sync-code`; sync is on exactly when
  a non-empty code is stored.
 */
module SyncCode {
  import opened Seqs
  import opened Strings
  import SyncKeys

  /** The generator's alphabet: lowercase letters and digits without i, l, o, 0 and 1. */
  const Alphabet: string := "abcdefghjkmnpqrstuvwxyz23456789"

  const CodeLength: nat := 6

  /**
    The stored code, and whether the `pangrum-has-synced` marker is present
    (it is only ever removed here).
   */
  datatype Prefs = Prefs(syncCode: Option<string>, hasSyncedMarker: bool)

  /** `isEnabled`: a code is stored and it is not empty. */
  predicate IsEnabled(code: Option<string>) {
    code.Some? && |code.value| > 0
  }

  /** A draw of `Math.random()`. */
  predicate IsDraw(x: real) {
    0.0 <= x < 1.0
  }

  /** `chars[Math.floor(x * chars.length)]` for one draw; the alphabet has 31 characters. */
  function PickChar(x: real): (c: char)
    requires IsDraw(x)
    ensures c in Alphabet
  {
    assert |Alphabet| == 31;
    var i := (x * 31.0).Floor;
    Alphabet[i]
  }

  /** `generateCode`, with the six random draws as input. */
  function GenerateCode(draws: seq<real>): (code: string)
    requires |draws| == CodeLength
    requires forall k | 0 <= k < |draws| :: IsDraw(draws[k])
    ensures |code| == CodeLength
    ensures forall k | 0 <= k < |code| :: code[k] in Alphabet && code[k] == PickChar(draws[k])
  {
    seq(CodeLength, k requires 0 <= k < CodeLength => PickChar(draws[k]))
  }

  /** The draw that picks `Alphabet[i]`. */
  lemma PickIndex(i: nat)
    requires i < |Alphabet|
    ensures IsDraw(i as real / 31.0)
    ensures PickChar(i as real / 31.0) == Alphabet[i]
  {
    var x := i as real / 31.0;
    assert x * 31.0 == i as real;
    assert (i as real).Floor == i;
  }

  /**
    Every six-character string over the alphabet can come out of the
    generator: the one spelled by alphabet positions `idx` comes from the
    draws `idx[k] / 31`.
   */
  lemma GenerateCodeOnto(idx: seq<nat>)
    requires |idx| == CodeLength
    requires forall k | 0 <= k < |idx| :: idx[k] < |Alphabet|
    ensures var draws := seq(CodeLength, k requires 0 <= k < CodeLength => idx[k] as real / 31.0);
            && (forall k | 0 <= k < CodeLength :: IsDraw(draws[k]))
            && GenerateCode(draws) == seq(CodeLength, k requires 0 <= k < CodeLength => Alphabet[idx[k]])
  {
    forall k | 0 <= k < CodeLength {
      PickIndex(idx[k]);
    }
  }

  /** `enable(code)`: store the lowercased, trimmed code, or a generated one if that is empty. */
  function Enable(p: Prefs, code: Option<string>, draws: seq<real>): (q: Prefs)
    requires |draws| == CodeLength
    requires forall k | 0 <= k < |draws| :: IsDraw(draws[k])
    ensures IsEnabled(q.syncCode)
    ensures q.hasSyncedMarker == p.hasSyncedMarker
  {
    var given := if code.Some? then Trim(ToLower(code.value)) else "";
    Prefs(Some(if given != "" then given else GenerateCode(draws)), p.hasSyncedMarker)
  }

  /**
    A code that is not blank is stored normalised; no code, or a blank one,
    stores exactly what the generator makes of the draws.
   */
  lemma EnableChoice(p: Prefs, code: Option<string>, draws: seq<real>)
    requires |draws| == CodeLength
    requires forall k | 0 <= k < |draws| :: IsDraw(draws[k])
    ensures code.Some? && !IsBlank(code.value) ==>
      Enable(p, code, draws).syncCode == Some(ToLower(Trim(code.value)))
    ensures code.None? || IsBlank(code.value) ==>
      Enable(p, code, draws).syncCode == Some(GenerateCode(draws))
  {
    if code.Some? {
      var low := ToLower(code.value);
      TrimBlank(low);
      LowerKeepsWhitespace(code.value);
      SyncKeysLower(code.value);
    }
  }

  /** Only white space (or nothing at all). */
  predicate IsBlank(s: string) {
    forall k | 0 <= k < |s| :: IsWhitespace(s[k])
  }

  lemma LowerKeepsWhitespace(s: string)
    ensures IsBlank(ToLower(s)) <==> IsBlank(s)
  {
    assert forall k | 0 <= k < |s| :: IsWhitespace(ToLower(s)[k]) <==> IsWhitespace(s[k]);
  }

  lemma SyncKeysLower(s: string)
    ensures Trim(ToLower(s)) == ToLower(Trim(s))
  {
    SyncKeys.NormalizeRoomIdSpec(s);
  }

  /** `disable`: forget the code and remove the has-synced marker. */
  function Disable(p: Prefs): (q: Prefs)
    ensures !IsEnabled(q.syncCode) && q.syncCode.None?
    ensures !q.hasSyncedMarker
  {
    Prefs(None, false)
  }
}
