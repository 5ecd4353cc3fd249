/** The record the clustering engine works on: one freelance worker as loaded
    from the data file. Only the four categorical labels take part in
    clustering; the identifier and the two performance figures are carried
    along unchanged. */
module Freelancers {

  datatype Freelancer = Freelancer(
    id: nat,
    jobCategory: string,
    platform: string,
    clientRegion: string,
    experienceLevel: string,
    earningsUsd: real,
    hourlyRate: real)

  /** Two records agree on every label the similarity score looks at. */
  predicate SameLabels(a: Freelancer, b: Freelancer)
  {
    a.jobCategory == b.jobCategory && a.platform == b.platform &&
    a.clientRegion == b.clientRegion && a.experienceLevel == b.experienceLevel
  }
}
