/**
  The module-level, read-only list of showcase projects. Only the stable
  identifier matters to the controller; titles, descriptions, images and
  tags are content and are not modelled.
 */
module Catalog {

  datatype Project = Project(id: nat)

  /** Ids are pairwise distinct, so `key={project.id}` is a valid React key. */
  predicate DistinctIds(catalog: seq<Project>) {
    forall i, j :: 0 <= i < j < |catalog| ==> catalog[i].id != catalog[j].id
  }

  /** What the controller relies on: a non-empty catalog with distinct ids. */
  predicate WellFormed(catalog: seq<Project>) {
    |catalog| >= 1 && DistinctIds(catalog)
  }

  /** The six projects of the portfolio, with ids 1 through 6. */
  const Projects: seq<Project> :=
    [Project(1), Project(2), Project(3), Project(4), Project(5), Project(6)]

  /** Position `i` of the catalog holds the project with id `i + 1`. */
  lemma ProjectsShape()
    ensures |Projects| == 6 && WellFormed(Projects)
    ensures forall i :: 0 <= i < |Projects| ==> Projects[i].id == i + 1
  {
  }

  /** The position of a project id in a catalog with distinct ids is unique. */
  lemma IdDeterminesPosition(catalog: seq<Project>, i: nat, j: nat)
    requires DistinctIds(catalog) && i < |catalog| && j < |catalog|
    ensures catalog[i].id == catalog[j].id <==> i == j
  {
  }
}
