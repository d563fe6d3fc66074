/** The role/feature matrix shared by server and client, and the single predicate
    that consults it. */
module Permissions {
  import opened Wrappers

  /** The two roles a user can hold. */
  datatype Role = ADMIN | DISTRIBUTOR

  /** The features that the matrix gates; `manageProducts` is the only one. */
  datatype Feature = ManageProducts

  /** The constant matrix: for each feature, the roles allowed to use it. */
  function FeatureMatrix(feature: Feature): seq<Role> {
    match feature
    case ManageProducts => [ADMIN]
  }

  /** `hasFeature(role, feature)`: an undefined role has no feature; a defined role has
      a feature exactly when the matrix lists it for that feature. */
  function HasFeature(role: Option<Role>, feature: Feature): (r: bool)
    ensures role.None? ==> !r
    ensures feature == ManageProducts ==> (r <==> role == Some(ADMIN))
  {
    role.Some? && role.value in FeatureMatrix(feature)
  }
}
