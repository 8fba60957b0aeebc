/**
 Bilingual link parity: the surplus links of the English and the Korean page are paired off greedily,
 first by target, then by fragment, and the rest is reported unpaired.
 */
module LinkParity {
  import opened Wrappers

  datatype Target = DocId(id: string) | RepositoryPath(path: string)

  datatype Key = Key(target: Target, fragment: Option<string>)

  /** A multiset of links: how often each key occurs. Stored counts are positive. */
  type Counts = map<Key, nat>

  ghost predicate Positive(c: Counts) {
    forall k :: k in c ==> c[k] > 0
  }

  function CountFor(c: Counts, k: Key): nat {
    if k in c then c[k] else 0
  }

  datatype Issue =
    | FragmentMismatch(en: Key, ko: Key, count: nat)
    | TargetMismatch(en: Key, ko: Key, count: nat)
    | OnlyEnglish(en: Key, count: nat)
    | OnlyKorean(ko: Key, count: nat)

  /** How many English occurrences of the key the issue accounts for. */
  function EnglishShare(i: Issue, k: Key): nat {
    match i
    case FragmentMismatch(en, _, count) => if en == k then count else 0
    case TargetMismatch(en, _, count) => if en == k then count else 0
    case OnlyEnglish(en, count) => if en == k then count else 0
    case OnlyKorean(_, _) => 0
  }

  function KoreanShare(i: Issue, k: Key): nat {
    match i
    case FragmentMismatch(_, ko, count) => if ko == k then count else 0
    case TargetMismatch(_, ko, count) => if ko == k then count else 0
    case OnlyEnglish(_, _) => 0
    case OnlyKorean(ko, count) => if ko == k then count else 0
  }

  function EnglishReported(issues: seq<Issue>, k: Key): nat {
    if issues == [] then 0 else EnglishReported(issues[..|issues| - 1], k) + EnglishShare(issues[|issues| - 1], k)
  }

  function KoreanReported(issues: seq<Issue>, k: Key): nat {
    if issues == [] then 0 else KoreanReported(issues[..|issues| - 1], k) + KoreanShare(issues[|issues| - 1], k)
  }

  /** One more in `left` than in `right`, as often as that is so. */
  function Surplus(left: Counts, right: Counts, k: Key): nat {
    if CountFor(left, k) > CountFor(right, k) then CountFor(left, k) - CountFor(right, k) else 0
  }

  /** What each kind of issue may say about the pair it reports. */
  predicate Justified(i: Issue) {
    match i
    case FragmentMismatch(en, ko, count) => count > 0 && en.target == ko.target && en.fragment != ko.fragment
    case TargetMismatch(en, ko, count) => count > 0 && en.fragment == ko.fragment && en.target != ko.target
    case OnlyEnglish(_, count) => count > 0
    case OnlyKorean(_, count) => count > 0
  }

  /** What the issue is about can no longer be reported from the keys that wait. */
  ghost predicate Settled(i: Issue, ens: set<Key>, kos: set<Key>) {
    match i
    case FragmentMismatch(en, ko, _) => en !in ens || ko !in kos
    case TargetMismatch(en, ko, _) => en !in ens || ko !in kos
    case OnlyEnglish(en, _) => en !in ens
    case OnlyKorean(ko, _) => ko !in kos
  }

  /** The same kind of issue about the same keys, whatever the counts. */
  ghost predicate SameSubject(a: Issue, b: Issue) {
    || (a.FragmentMismatch? && b.FragmentMismatch? && a.en == b.en && a.ko == b.ko)
    || (a.TargetMismatch? && b.TargetMismatch? && a.en == b.en && a.ko == b.ko)
    || (a.OnlyEnglish? && b.OnlyEnglish? && a.en == b.en)
    || (a.OnlyKorean? && b.OnlyKorean? && a.ko == b.ko)
  }

  /** Everything about one kind and its keys is in one issue. */
  ghost predicate OneIssueEach(issues: seq<Issue>) {
    forall i, j :: 0 <= i < j < |issues| ==> !SameSubject(issues[i], issues[j])
  }

  method MultisetDifference(left: Counts, right: Counts) returns (difference: Counts)
    ensures Positive(difference)
    ensures forall k :: CountFor(difference, k) == Surplus(left, right, k)
  {
    difference := map[];
    var todo := left.Keys;
    while todo != {}
      invariant todo <= left.Keys && Positive(difference)
      invariant forall k :: CountFor(difference, k) == if k in left && k !in todo then Surplus(left, right, k) else 0
      decreases todo
    {
      var key :| key in todo;
      todo := todo - {key};
      var rightCount := CountFor(right, key);
      if left[key] > rightCount {
        difference := difference[key := left[key] - rightCount];
      }
    }
  }

  datatype Pass = ByTarget | ByFragment

  /** The key pairs a pass looks for. */
  predicate Pairs(pass: Pass, en: Key, ko: Key) {
    match pass
    case ByTarget => ko.target == en.target && ko.fragment != en.fragment
    case ByFragment => ko.fragment == en.fragment && ko.target != en.target
  }

  function Mismatch(pass: Pass, en: Key, ko: Key, count: nat): Issue {
    match pass
    case ByTarget => FragmentMismatch(en, ko, count)
    case ByFragment => TargetMismatch(en, ko, count)
  }

  /** An issue of the pass, about keys that were waiting when it began. */
  ghost predicate FromPass(pass: Pass, i: Issue, ens: set<Key>, kos: set<Key>) {
    match pass
    case ByTarget => i.FragmentMismatch? && i.en in ens && i.ko in kos
    case ByFragment => i.TargetMismatch? && i.en in ens && i.ko in kos
  }

  /** An unpaired key of one side, among those that were waiting. */
  ghost predicate Unpaired(i: Issue, english: bool, keys: set<Key>) {
    if english then i.OnlyEnglish? && i.en in keys else i.OnlyKorean? && i.ko in keys
  }

  /** consume_count: an exhausted key leaves the map. */
  function Consume(c: Counts, k: Key, count: nat): (r: Counts)
    requires k in c && count <= c[k]
    ensures forall o :: CountFor(r, o) == if o == k then c[k] - count else CountFor(c, o)
    ensures r.Keys <= c.Keys
    ensures Positive(c) ==> Positive(r)
  {
    if c[k] == count then map o | o in c && o != k :: c[o] else c[k := c[k] - count]
  }

  lemma ReportedSnoc(issues: seq<Issue>, i: Issue, k: Key)
    ensures EnglishReported(issues + [i], k) == EnglishReported(issues, k) + EnglishShare(i, k)
    ensures KoreanReported(issues + [i], k) == KoreanReported(issues, k) + KoreanShare(i, k)
  {
    assert (issues + [i])[..|issues|] == issues;
  }

  ghost predicate AllSettled(issues: seq<Issue>, ens: set<Key>, kos: set<Key>) {
    forall i :: 0 <= i < |issues| ==> Settled(issues[i], ens, kos)
  }

  /** An issue about waiting keys is a new one; it is settled once it uses one of them up. */
  lemma NewIssue(issues: seq<Issue>, i: Issue, ens: set<Key>, kos: set<Key>, lessEns: set<Key>, lessKos: set<Key>)
    requires AllSettled(issues, ens, kos) && OneIssueEach(issues) && !Settled(i, ens, kos)
    requires lessEns <= ens && lessKos <= kos && Settled(i, lessEns, lessKos)
    ensures AllSettled(issues + [i], lessEns, lessKos) && OneIssueEach(issues + [i])
  {
  }

  class Pairing {
    var onlyEn: Counts
    var onlyKo: Counts
    var issues: seq<Issue>
    /** The surplus the pairing started from. */
    ghost const en: Key -> nat
    ghost const ko: Key -> nat

    constructor (enLinks: Counts, koLinks: Counts)
      ensures Valid() && issues == []
      ensures forall k :: en(k) == Surplus(enLinks, koLinks, k) && ko(k) == Surplus(koLinks, enLinks, k)
    {
      var surplusEn := MultisetDifference(enLinks, koLinks);
      var surplusKo := MultisetDifference(koLinks, enLinks);
      assert forall k :: k in surplusEn ==> CountFor(surplusEn, k) > 0 && CountFor(surplusKo, k) == 0;
      onlyEn, onlyKo, issues := surplusEn, surplusKo, [];
      en := k => Surplus(enLinks, koLinks, k);
      ko := k => Surplus(koLinks, enLinks, k);
    }

    /** Every surplus occurrence is either reported or still waiting, and no key waits on both sides. */
    ghost predicate Valid()
      reads this
    {
      && Positive(onlyEn) && Positive(onlyKo)
      && (forall k :: EnglishReported(issues, k) + CountFor(onlyEn, k) == en(k))
      && (forall k :: KoreanReported(issues, k) + CountFor(onlyKo, k) == ko(k))
      && (forall i :: 0 <= i < |issues| ==> Justified(issues[i]))
      && onlyEn.Keys !! onlyKo.Keys
      && AllSettled(issues, onlyEn.Keys, onlyKo.Keys) && OneIssueEach(issues)
    }

    ghost predicate NoPairs(pass: Pass, ens: set<Key>)
      reads this
    {
      forall e, k :: e in ens && e in onlyEn && k in onlyKo ==> !Pairs(pass, e, k)
    }

    /** report_fragment_mismatches and report_target_mismatches. */
    method ReportMismatches(pass: Pass)
      requires Valid()
      modifies this
      ensures Valid()
      ensures NoPairs(pass, onlyEn.Keys)
      ensures onlyEn.Keys <= old(onlyEn.Keys) && onlyKo.Keys <= old(onlyKo.Keys)
      ensures old(issues) <= issues
      ensures forall i :: |old(issues)| <= i < |issues| ==>
        FromPass(pass, issues[i], old(onlyEn.Keys), old(onlyKo.Keys))
    {
      var todo := onlyEn.Keys;
      ghost var done: set<Key> := {};
      while todo != {}
        invariant Valid() && onlyEn.Keys <= todo + done
        invariant onlyEn.Keys <= old(onlyEn.Keys) && onlyKo.Keys <= old(onlyKo.Keys)
        invariant old(issues) <= issues
        invariant forall i :: |old(issues)| <= i < |issues| ==>
          FromPass(pass, issues[i], old(onlyEn.Keys), old(onlyKo.Keys))
        invariant NoPairs(pass, done)
        decreases todo
      {
        var key :| key in todo;
        todo := todo - {key};
        PairKey(pass, key, done);
        done := done + {key};
      }
    }

    /** Both passes, targets first. */
    method PairOff() returns (ghost a: nat, ghost ens: set<Key>, ghost kos: set<Key>)
      requires Valid() && issues == []
      modifies this
      ensures Valid() && a <= |issues| && onlyEn.Keys <= ens && onlyKo.Keys <= kos
      ensures forall i :: 0 <= i < a ==> issues[i].FragmentMismatch?
      ensures forall i :: a <= i < |issues| ==> FromPass(ByFragment, issues[i], ens, kos)
      ensures forall e, k :: e in ens && k in kos ==> e.target != k.target
      ensures forall e, k :: e in onlyEn.Keys && k in onlyKo.Keys ==> e.fragment != k.fragment
    {
      hide EnglishReported, KoreanReported, Justified, AllSettled, OneIssueEach;
      ReportMismatches(ByTarget);
      a, ens, kos := |issues|, onlyEn.Keys, onlyKo.Keys;
      assert forall e, k :: e in ens && k in kos ==> e.target != k.target by {
        assert forall e, k :: e in ens && k in kos ==> !Pairs(ByTarget, e, k) && e != k;
      }
      ReportMismatches(ByFragment);
      assert forall e, k :: e in onlyEn.Keys && k in onlyKo.Keys ==> !Pairs(ByFragment, e, k);
    }

    /** The inner loop: consume Korean partners of one English key until either side runs out. */
    method PairKey(pass: Pass, key: Key, ghost done: set<Key>)
      requires Valid() && NoPairs(pass, done)
      modifies this
      ensures Valid() && NoPairs(pass, done + {key})
      ensures onlyEn.Keys <= old(onlyEn.Keys) && onlyKo.Keys <= old(onlyKo.Keys)
      ensures old(issues) <= issues
      ensures forall i :: |old(issues)| <= i < |issues| ==>
        FromPass(pass, issues[i], old(onlyEn.Keys), old(onlyKo.Keys))
    {
      while CountFor(onlyEn, key) > 0
        invariant Valid() && NoPairs(pass, done)
        invariant onlyEn.Keys <= old(onlyEn.Keys) && onlyKo.Keys <= old(onlyKo.Keys)
        invariant old(issues) <= issues
        invariant forall i :: |old(issues)| <= i < |issues| ==>
          FromPass(pass, issues[i], old(onlyEn.Keys), old(onlyKo.Keys))
        decreases CountFor(onlyEn, key)
      {
        var partners := set k | k in onlyKo && Pairs(pass, key, k);
        if partners == {} {
          assert forall k :: k in onlyKo && Pairs(pass, key, k) ==> k in partners;
          break;
        }
        var partner :| partner in partners;
        ReportPair(pass, key, partner);
      }
    }

    method ReportPair(pass: Pass, key: Key, partner: Key)
      requires Valid() && key in onlyEn && partner in onlyKo && Pairs(pass, key, partner)
      modifies this
      ensures Valid()
      ensures onlyEn.Keys <= old(onlyEn.Keys) && onlyKo.Keys <= old(onlyKo.Keys)
      ensures CountFor(onlyEn, key) < old(CountFor(onlyEn, key))
      ensures |issues| == |old(issues)| + 1 && old(issues) <= issues
      ensures FromPass(pass, issues[|old(issues)|], {key}, {partner})
    {
      hide EnglishReported, KoreanReported, AllSettled, OneIssueEach;
      ghost var ens, kos := onlyEn.Keys, onlyKo.Keys;
      var count := if onlyEn[key] <= onlyKo[partner] then onlyEn[key] else onlyKo[partner];
      var issue := Mismatch(pass, key, partner, count);
      forall k {
        ReportedSnoc(issues, issue, k);
      }
      onlyEn := Consume(onlyEn, key, count);
      onlyKo := Consume(onlyKo, partner, count);
      NewIssue(issues, issue, ens, kos, onlyEn.Keys, onlyKo.Keys);
      issues := issues + [issue];
    }

    function Waiting(english: bool): Counts
      reads this
    {
      if english then onlyEn else onlyKo
    }

    /** report_unpaired_semantic_links: one issue for each key that waits on one side. */
    method ReportUnpaired(english: bool)
      requires Valid()
      modifies this
      ensures Valid() && Waiting(english) == map[] && Waiting(!english) == old(Waiting(!english))
      ensures old(issues) <= issues
      ensures forall i :: |old(issues)| <= i < |issues| ==> Unpaired(issues[i], english, old(Waiting(english).Keys))
    {
      while Waiting(english) != map[]
        invariant Valid() && Waiting(english).Keys <= old(Waiting(english).Keys)
        invariant Waiting(!english) == old(Waiting(!english)) && old(issues) <= issues
        invariant forall i :: |old(issues)| <= i < |issues| ==>
          Unpaired(issues[i], english, old(Waiting(english).Keys))
        decreases Waiting(english).Keys
      {
        var key :| key in Waiting(english);
        ReportKey(english, key);
      }
    }

    method ReportKey(english: bool, key: Key)
      requires Valid() && key in Waiting(english)
      modifies this
      ensures Valid() && Waiting(english).Keys < old(Waiting(english).Keys)
      ensures Waiting(!english) == old(Waiting(!english))
      ensures |issues| == |old(issues)| + 1 && old(issues) <= issues
      ensures Unpaired(issues[|old(issues)|], english, {key})
    {
      hide EnglishReported, KoreanReported, AllSettled, OneIssueEach;
      ghost var ens, kos := onlyEn.Keys, onlyKo.Keys;
      var count := Waiting(english)[key];
      var issue := if english then OnlyEnglish(key, count) else OnlyKorean(key, count);
      forall k {
        ReportedSnoc(issues, issue, k);
      }
      if english {
        onlyEn := Consume(onlyEn, key, count);
      } else {
        onlyKo := Consume(onlyKo, key, count);
      }
      assert CountFor(Waiting(english), key) == 0;
      NewIssue(issues, issue, ens, kos, onlyEn.Keys, onlyKo.Keys);
      issues := issues + [issue];
    }
  }

  /** Issues that account for exactly these surpluses. */
  ghost predicate Accounts(issues: seq<Issue>, enLinks: Counts, koLinks: Counts) {
    && (forall k :: EnglishReported(issues, k) == Surplus(enLinks, koLinks, k))
    && (forall k :: KoreanReported(issues, k) == Surplus(koLinks, enLinks, k))
    && (forall i :: 0 <= i < |issues| ==> Justified(issues[i]))
  }

  /** No reported English leftover could still be paired with a reported Korean one. */
  ghost predicate LeftoversUnrelated(issues: seq<Issue>) {
    forall i, j :: 0 <= i < |issues| && 0 <= j < |issues| && issues[i].OnlyEnglish? && issues[j].OnlyKorean? ==>
      issues[i].en.target != issues[j].ko.target && issues[i].en.fragment != issues[j].ko.fragment
  }

  /** A shared target is always used up first: what other issues report has no target in common. */
  ghost predicate TargetsComeFirst(issues: seq<Issue>) {
    forall i, j :: 0 <= i < |issues| && 0 <= j < |issues| && EnglishLate(issues[i]) && KoreanLate(issues[j]) ==>
      issues[i].en.target != issues[j].ko.target
  }

  predicate EnglishLate(i: Issue) {
    i.TargetMismatch? || i.OnlyEnglish?
  }

  predicate KoreanLate(i: Issue) {
    i.TargetMismatch? || i.OnlyKorean?
  }

  /** The four groups a comparison reports, in order: what the later groups draw on decides both orders. */
  lemma ReportedInOrder(issues: seq<Issue>, a: nat, b: nat, c: nat,
                        ens: set<Key>, kos: set<Key>, lateEns: set<Key>, lateKos: set<Key>)
    requires a <= b <= c <= |issues| && lateEns <= ens && lateKos <= kos
    requires forall e, k :: e in ens && k in kos ==> e.target != k.target
    requires forall e, k :: e in lateEns && k in lateKos ==> e.fragment != k.fragment
    requires forall i :: 0 <= i < a ==> issues[i].FragmentMismatch?
    requires forall i :: a <= i < b ==> FromPass(ByFragment, issues[i], ens, kos)
    requires forall i :: b <= i < c ==> issues[i].OnlyEnglish? && issues[i].en in lateEns
    requires forall i :: c <= i < |issues| ==> issues[i].OnlyKorean? && issues[i].ko in lateKos
    ensures TargetsComeFirst(issues) && LeftoversUnrelated(issues)
  {
    assert forall i :: 0 <= i < |issues| && EnglishLate(issues[i]) ==> issues[i].en in ens;
    assert forall i :: 0 <= i < |issues| && KoreanLate(issues[i]) ==> issues[i].ko in kos;
    assert forall i :: 0 <= i < |issues| && issues[i].OnlyEnglish? ==> issues[i].en in lateEns;
  }

  lemma {:induction false} ReportedSomething(issues: seq<Issue>)
    requires issues != [] && forall i :: 0 <= i < |issues| ==> Justified(issues[i])
    ensures exists k :: EnglishReported(issues, k) > 0 || KoreanReported(issues, k) > 0
  {
    var last := issues[|issues| - 1];
    assert Justified(last);
    if last.OnlyKorean? {
      assert KoreanReported(issues, last.ko) > 0;
    } else {
      assert EnglishReported(issues, last.en) > 0;
    }
  }

  /** Nothing is reported exactly when the two pages link equally. */
  lemma SilentIffEqual(issues: seq<Issue>, enLinks: Counts, koLinks: Counts)
    requires Accounts(issues, enLinks, koLinks)
    ensures issues == [] <==> forall k :: CountFor(enLinks, k) == CountFor(koLinks, k)
  {
    if issues == [] {
      forall k ensures CountFor(enLinks, k) == CountFor(koLinks, k) {
        assert EnglishReported(issues, k) == 0 && KoreanReported(issues, k) == 0;
        assert Surplus(enLinks, koLinks, k) == 0 && Surplus(koLinks, enLinks, k) == 0;
      }
    } else {
      ReportedSomething(issues);
    }
  }

  /** compare_semantic_link_multisets. */
  method Compare(enLinks: Counts, koLinks: Counts) returns (issues: seq<Issue>)
    ensures Accounts(issues, enLinks, koLinks)
    ensures TargetsComeFirst(issues) && LeftoversUnrelated(issues) && OneIssueEach(issues)
    ensures issues == [] <==> forall k :: CountFor(enLinks, k) == CountFor(koLinks, k)
  {
    hide EnglishReported, KoreanReported, Surplus, Justified, TargetsComeFirst, LeftoversUnrelated, OneIssueEach;
    var p := new Pairing(enLinks, koLinks);
    ghost var a, ens, kos := p.PairOff();
    ghost var b, lateEns, lateKos := |p.issues|, p.onlyEn.Keys, p.onlyKo.Keys;
    p.ReportUnpaired(true);
    ghost var c := |p.issues|;
    p.ReportUnpaired(false);
    issues := p.issues;
    ReportedInOrder(issues, a, b, c, ens, kos, lateEns, lateKos);
    SilentIffEqual(issues, enLinks, koLinks);
  }
}
