/** The similarity score between two freelancers, in hundredths: `shared_attributes` adds
    0.3, 0.25, 0.25 and 0.2 for an exact match on job category, platform,
    client region and experience level; here those weights are 30, 25, 25 and
    20, and two records are linked when the total exceeds 70. */
module Similarity {
  import opened Freelancers

  const JobCategoryWeight: nat := 30
  const PlatformWeight: nat := 25
  const ClientRegionWeight: nat := 25
  const ExperienceLevelWeight: nat := 20
  /** Scores strictly above this many hundredths make an edge. */
  const LinkThreshold: nat := 70
  /** The score of two records that agree on every label. */
  const MaxScore: nat := 100

  /** The categorical attributes that take part in the score. */
  datatype Attribute = JobCategory | Platform | ClientRegion | ExperienceLevel

  const AllAttributes: seq<Attribute> := [JobCategory, Platform, ClientRegion, ExperienceLevel]

  function Weight(attr: Attribute): nat
  {
    match attr
    case JobCategory => JobCategoryWeight
    case Platform => PlatformWeight
    case ClientRegion => ClientRegionWeight
    case ExperienceLevel => ExperienceLevelWeight
  }

  function Label(f: Freelancer, attr: Attribute): string
  {
    match attr
    case JobCategory => f.jobCategory
    case Platform => f.platform
    case ClientRegion => f.clientRegion
    case ExperienceLevel => f.experienceLevel
  }

  /** Reference definition: the sum of the weights of exactly those attributes
      in `attrs` on which the two records carry equal labels. */
  function MatchedWeight(attrs: seq<Attribute>, a: Freelancer, b: Freelancer): nat
  {
    if attrs == [] then 0
    else
      (if Label(a, attrs[0]) == Label(b, attrs[0]) then Weight(attrs[0]) else 0)
      + MatchedWeight(attrs[1..], a, b)
  }

  /** The score is additive: the weight matched over two lists of attributes
      is the sum of the weights matched over each. */
  lemma {:induction false} MatchedWeightAdditive(xs: seq<Attribute>, ys: seq<Attribute>, a: Freelancer, b: Freelancer)
    ensures MatchedWeight(xs + ys, a, b) == MatchedWeight(xs, a, b) + MatchedWeight(ys, a, b)
  {
    if xs != [] {
      assert (xs + ys)[0] == xs[0];
      assert (xs + ys)[1..] == xs[1..] + ys;
      MatchedWeightAdditive(xs[1..], ys, a, b);
    } else {
      assert xs + ys == ys;
    }
  }

  /** `shared_attributes`: the score accumulated one label at a time. Empty
      labels are compared like any other string, so two empty labels match. */
  function SharedAttributes(a: Freelancer, b: Freelancer): (score: nat)
    ensures score == MatchedWeight(AllAttributes, a, b)
    ensures score <= MaxScore
  {
    var afterJob := if a.jobCategory == b.jobCategory then JobCategoryWeight else 0;
    var afterPlatform := if a.platform == b.platform then afterJob + PlatformWeight else afterJob;
    var afterRegion := if a.clientRegion == b.clientRegion then afterPlatform + ClientRegionWeight else afterPlatform;
    var count := if a.experienceLevel == b.experienceLevel then afterRegion + ExperienceLevelWeight else afterRegion;
    assert MatchedWeight([ExperienceLevel], a, b) == count - afterRegion;
    assert MatchedWeight([ClientRegion, ExperienceLevel], a, b) == count - afterPlatform;
    assert MatchedWeight([Platform, ClientRegion, ExperienceLevel], a, b) == count - afterJob;
    count
  }

  /** The edge condition of the collaboration graph. */
  predicate Linked(a: Freelancer, b: Freelancer)
  {
    SharedAttributes(a, b) > LinkThreshold
  }

  /** The score does not depend on the order of its arguments. */
  lemma SharedAttributesSymmetric(a: Freelancer, b: Freelancer)
    ensures SharedAttributes(a, b) == SharedAttributes(b, a)
    ensures Linked(a, b) <==> Linked(b, a)
  {
  }

  /** Only the four labels matter: the identifier, earnings and hourly rate
      never change the score. */
  lemma SharedAttributesIgnoresOtherFields(a: Freelancer, a': Freelancer, b: Freelancer)
    requires SameLabels(a, a')
    ensures SharedAttributes(a, b) == SharedAttributes(a', b)
  {
  }

  /** The score is the full weight exactly when all four labels agree, and zero
      exactly when none does. */
  lemma SharedAttributesExtremes(a: Freelancer, b: Freelancer)
    ensures SharedAttributes(a, b) == MaxScore <==> SameLabels(a, b)
    ensures SharedAttributes(a, b) == 0 <==>
      (forall attr :: Label(a, attr) != Label(b, attr))
  {
    if SharedAttributes(a, b) == 0 {
      forall attr ensures Label(a, attr) != Label(b, attr) {
        match attr
        case JobCategory =>
        case Platform =>
        case ClientRegion =>
        case ExperienceLevel =>
      }
    }
    if forall attr :: Label(a, attr) != Label(b, attr) {
      assert Label(a, JobCategory) != Label(b, JobCategory);
      assert Label(a, Platform) != Label(b, Platform);
      assert Label(a, ClientRegion) != Label(b, ClientRegion);
      assert Label(a, ExperienceLevel) != Label(b, ExperienceLevel);
    }
  }

  /** Which combinations of matches make an edge: the job category must match,
      and so must at least two of the other three labels. Platform, client
      region and experience level together reach exactly 70, which is not
      above the threshold. */
  lemma LinkedCharacterization(a: Freelancer, b: Freelancer)
    ensures Linked(a, b) <==>
      a.jobCategory == b.jobCategory &&
      ((a.platform == b.platform && a.clientRegion == b.clientRegion) ||
       (a.platform == b.platform && a.experienceLevel == b.experienceLevel) ||
       (a.clientRegion == b.clientRegion && a.experienceLevel == b.experienceLevel))
  {
  }

  /** Identical labels are linked; records in different job categories are
      not. */
  lemma SameLabelsLinked(a: Freelancer, b: Freelancer)
    ensures SameLabels(a, b) ==> Linked(a, b)
    ensures a.jobCategory != b.jobCategory ==> !Linked(a, b)
  {
  }

  /** The unit test's pair: the same job category and platform only, which
      scores 0.55 and so makes no edge. */
  lemma JobAndPlatformOnlyExample()
    ensures
      var f1 := Freelancer(1, "Web Development", "Upwork", "USA", "Expert", 0.0, 0.0);
      var f2 := Freelancer(2, "Web Development", "Upwork", "Europe", "Intermediate", 0.0, 0.0);
      SharedAttributes(f1, f2) == 55 && !Linked(f1, f2)
  {
  }
}
