/** Shared vocabulary of the hedge model: failures, boundary tags and the
    boundary-coverage check that several operators run at construction time. */
module Common {

  /** The exceptions the modelled code raises. */
  datatype Error =
    | AssertionError(msg: string)
    | ValueError(msg: string)
    | BcCoverageError

  datatype Result<+T> = Ok(value: T) | Err(error: Error)

  datatype Option<+T> = None | Some(value: T) {
    function GetOr(default: T): T {
      match this
      case Some(v) => v
      case None => default
    }
  }

  /** Boundary tags of hedge.mesh: the two special tags TAG_ALL (every
      boundary face carries it) and TAG_NONE (no face carries it), and the
      user-named ones ("dirichlet", "neumann", ...). */
  datatype Tag = TagAll | TagNone | Named(name: string)

  /** A mesh as far as boundary conditions see it: the set of user tags
      attached to each boundary face. */
  datatype Mesh = Mesh(boundaryFaces: seq<set<Tag>>)

  /** Whether a face with user tags `tags` is selected by tag `t`. */
  predicate FaceHasTag(tags: set<Tag>, t: Tag) {
    t == TagAll || (t != TagNone && t in tags)
  }

  /** The condition hedge.mesh.check_bc_coverage enforces: every boundary
      face is selected by at least one of the listed tags. */
  predicate Covers(mesh: Mesh, tags: seq<Tag>) {
    forall f | 0 <= f < |mesh.boundaryFaces| ::
      exists t | t in tags :: FaceHasTag(mesh.boundaryFaces[f], t)
  }

  /** Listing TAG_ALL covers every mesh, whatever else is listed. */
  lemma TagAllCovers(mesh: Mesh, tags: seq<Tag>)
    requires TagAll in tags
    ensures Covers(mesh, tags)
  {
    forall f | 0 <= f < |mesh.boundaryFaces|
      ensures exists t | t in tags :: FaceHasTag(mesh.boundaryFaces[f], t)
    {
      assert FaceHasTag(mesh.boundaryFaces[f], TagAll);
    }
  }
}
