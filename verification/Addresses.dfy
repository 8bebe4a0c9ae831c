/** Which events share an address, in terms of kinds, authors and `d` tags alone. */
module Addresses {
  import opened Events

  predicate ReplaceableKind(kind: int) {
    kind == 0 || kind == 3 || 10000 <= kind <= 19999
  }

  predicate EphemeralKind(kind: int) {
    20000 <= kind <= 29999
  }

  predicate AddressableKind(kind: int) {
    30000 <= kind <= 39999
  }

  predicate IsD(tag: Tag) {
    tag != [] && tag[0] == "d"
  }

  ghost predicate FirstDAt(tags: seq<Tag>, i: int) {
    0 <= i < |tags| && IsD(tags[i]) && forall j :: 0 <= j < i ==> !IsD(tags[j])
  }

  /** The value of the first `d` tag; the empty string if that has none or there is no `d` tag. */
  ghost predicate DValue(tags: seq<Tag>, d: string) {
    || (d == "" && forall i :: 0 <= i < |tags| ==> !IsD(tags[i]))
    || exists i :: FirstDAt(tags, i) && d == if |tags[i]| == 1 then "" else tags[i][1]
  }

  /** Of one author and one replaceable kind, or of one author, one addressable kind and one `d` value. */
  ghost predicate SamePlace(e: Event, f: Event) {
    e.pubkey == f.pubkey && e.kind == f.kind &&
    (ReplaceableKind(e.kind) || (AddressableKind(e.kind) && exists d :: DValue(e.tags, d) && DValue(f.tags, d)))
  }

  lemma KindsAre(e: Event)
    ensures TypeOf(e).Replaceable? <==> ReplaceableKind(e.kind)
    ensures TypeOf(e).Ephemeral? <==> EphemeralKind(e.kind)
    ensures TypeOf(e).Addressable? <==> AddressableKind(e.kind)
  {
  }

  // ---------- The `d` tag ----------

  lemma {:induction false} DTagIsDValue(tags: seq<Tag>, d: string)
    ensures DValue(tags, d) <==> d == DTag(tags)
  {
    if tags != [] && !IsD(tags[0]) {
      DTagIsDValue(tags[1..], d);
      DValueRest(tags, d);
    } else if tags != [] {
      assert FirstDAt(tags, 0);
    }
  }

  lemma DValueRest(tags: seq<Tag>, d: string)
    requires tags != [] && !IsD(tags[0])
    ensures DValue(tags, d) <==> DValue(tags[1..], d)
  {
    var rest := tags[1..];
    NoDRest(tags);
    if i :| FirstDAt(tags, i) && d == if |tags[i]| == 1 then "" else tags[i][1] {
      FirstDRest(tags, i - 1);
      assert FirstDAt(rest, i - 1) && rest[i - 1] == tags[i];
    }
    if i :| FirstDAt(rest, i) && d == if |rest[i]| == 1 then "" else rest[i][1] {
      FirstDRest(tags, i);
      assert FirstDAt(tags, i + 1) && rest[i] == tags[i + 1];
    }
  }

  lemma NoDRest(tags: seq<Tag>)
    requires tags != [] && !IsD(tags[0])
    ensures (forall i :: 0 <= i < |tags| ==> !IsD(tags[i])) <==>
              (forall i :: 0 <= i < |tags[1..]| ==> !IsD(tags[1..][i]))
  {
    var rest := tags[1..];
    assert forall i :: 0 <= i < |rest| ==> rest[i] == tags[i + 1];
    assert forall i :: 0 < i < |tags| ==> tags[i] == rest[i - 1];
  }

  lemma FirstDRest(tags: seq<Tag>, i: int)
    requires tags != [] && !IsD(tags[0]) && i >= -1
    ensures FirstDAt(tags[1..], i) <==> FirstDAt(tags, i + 1)
  {
    var rest := tags[1..];
    assert forall j :: 0 <= j < |rest| ==> rest[j] == tags[j + 1];
    assert forall j :: 0 < j < |tags| ==> tags[j] == rest[j - 1];
  }

  // ---------- Kinds in decimal ----------

  /** The number a string of decimal digits stands for. */
  function DecimalValue(s: string): int {
    if s == [] then 0 else 10 * DecimalValue(s[..|s| - 1]) + (s[|s| - 1] as int - '0' as int)
  }

  ghost predicate Decimal(s: string) {
    s != [] && (forall i :: 0 <= i < |s| ==> '0' <= s[i] <= '9') && (|s| > 1 ==> s[0] != '0')
  }

  lemma {:induction false} FormatNatReads(n: nat)
    ensures Decimal(FormatNat(n)) && DecimalValue(FormatNat(n)) == n
    ensures n > 0 ==> FormatNat(n)[0] != '0'
  {
    if n >= 10 {
      FormatNatReads(n / 10);
      var s := FormatNat(n);
      assert s[..|s| - 1] == FormatNat(n / 10);
    } else {
      assert FormatNat(n)[..0] == [];
    }
  }

  /** A string without colons up to its first colon. */
  lemma {:induction false} SplitAtColon(a: string, x: string, b: string, y: string)
    requires ':' !in a && ':' !in b && a + ":" + x == b + ":" + y
    ensures a == b && x == y
  {
    var s, t := a + ":" + x, b + ":" + y;
    assert s[|a|] == ':' && t[|b|] == ':';
    assert forall i :: 0 <= i < |a| ==> s[i] == a[i] != ':';
    assert forall i :: 0 <= i < |b| ==> t[i] == b[i] != ':';
    assert |a| == |b|;
    assert a == s[..|a|] == b && x == s[|a| + 1..] == y;
  }

  /** An address is the kind in decimal, the author and the `d` value, with colons between. */
  lemma AddressReads(e: Event)
    ensures Address(e) != "" <==> ReplaceableKind(e.kind) || AddressableKind(e.kind)
    ensures Address(e) != "" ==> exists k, d ::
              && Address(e) == k + ":" + e.pubkey + ":" + d
              && Decimal(k) && DecimalValue(k) == e.kind
              && if AddressableKind(e.kind) then DValue(e.tags, d) else d == ""
  {
    if Address(e) != "" {
      var k, d := AddressParts(e);
      DTagIsDValue(e.tags, d);
      assert k + ":" + e.pubkey + ":" + d == k + ":" + (e.pubkey + (":" + d));
    }
  }

  /** Two events of authors whose keys are equally long share an address exactly when they are of one
      place. */
  lemma SharedAddress(e: Event, f: Event)
    requires |e.pubkey| == |f.pubkey|
    ensures Address(e) == Address(f) != "" <==> SamePlace(e, f)
  {
    KindsAre(e);
    forall d ensures DValue(e.tags, d) <==> d == DTag(e.tags) { DTagIsDValue(e.tags, d); }
    forall d ensures DValue(f.tags, d) <==> d == DTag(f.tags) { DTagIsDValue(f.tags, d); }
    hide DValue;
    if SamePlace(e, f) {
      SameParts(e, f);
    }
    hide Address, DTag, DecimalValue, Decimal;
    if Address(e) == Address(f) != "" {
      var k, d := AddressParts(e);
      var k', d' := AddressParts(f);
      SplitParts(k, e.pubkey, d, k', f.pubkey, d');
      assert e.kind == DecimalValue(k) == f.kind;
      assert AddressableKind(e.kind) ==> DValue(e.tags, d) && DValue(f.tags, d);
    }
  }

  lemma SameParts(e: Event, f: Event)
    requires e.kind == f.kind && e.pubkey == f.pubkey && (ReplaceableKind(e.kind) || AddressableKind(e.kind))
    requires AddressableKind(e.kind) ==> DTag(e.tags) == DTag(f.tags)
    ensures Address(e) == Address(f) != ""
  {
    hide DTag;
  }

  lemma SplitParts(k: string, p: string, d: string, k': string, p': string, d': string)
    requires ':' !in k && ':' !in k' && |p| == |p'|
    requires k + ":" + (p + (":" + d)) == k' + ":" + (p' + (":" + d'))
    ensures k == k' && p == p' && d == d'
  {
    var x, y := p + (":" + d), p' + (":" + d');
    SplitAtColon(k, x, k', y);
    assert p == x[..|p|] == y[..|p|] == p';
    assert d == x[|p| + 1..] == y[|p| + 1..] == d';
  }

  lemma AddressParts(e: Event) returns (k: string, d: string)
    requires Address(e) != ""
    ensures Address(e) == k + ":" + (e.pubkey + (":" + d))
    ensures ':' !in k && Decimal(k) && DecimalValue(k) == e.kind
    ensures ReplaceableKind(e.kind) || AddressableKind(e.kind)
    ensures d == if AddressableKind(e.kind) then DTag(e.tags) else ""
  {
    hide FormatNat, DTag, DecimalValue;
    k, d := FormatInt(e.kind), if AddressableKind(e.kind) then DTag(e.tags) else "";
    FormatNatReads(e.kind);
    ColonsJoin(k, e.pubkey, d);
    assert "" == d ==> ((k + ":") + e.pubkey) + ":" + d == ((k + ":") + e.pubkey) + ":";
  }

  lemma ColonsJoin(k: string, p: string, d: string)
    ensures k + ":" + p + ":" + d == k + ":" + (p + (":" + d))
  {
  }
}
