/** `src/project.rs`: the project record, its hand-written equality and the
    derived defaults. */
module Projects {
  import opened Wrappers
  import Images

  /** A portfolio project; `T` is the texture handle inside its images. */
  datatype Project<T> = Project(id: u64, name: string, description: string,
                                images: seq<Images.Image<T>>, links: seq<string>)

  /** A link with an icon, as declared next to `Project`. */
  datatype Links = Links(url: string, icon: string, name: string)

  /** `PartialEq for Project`: only the identifier and the name are compared. */
  predicate ProjectEq<T>(p: Project<T>, q: Project<T>)
  {
    p.id == q.id && p.name == q.name
  }

  /** The equality ignores the description, the images and the links: `p`
      equals `q` if and only if copying those three fields of `q` into `p`
      makes the two records identical. */
  lemma ProjectEqIgnoresContent<T>(p: Project<T>, q: Project<T>)
    ensures ProjectEq(p, q) <==> p.(description := q.description, images := q.images, links := q.links) == q
  {
  }

  /** Editing a project's description, images or links keeps it equal to
      itself as it was. */
  lemma ProjectEqAfterEdit<T>(p: Project<T>, d: string, imgs: seq<Images.Image<T>>, ls: seq<string>)
    ensures ProjectEq(p, p.(description := d, images := imgs, links := ls))
  {
  }

  /** The project equality is an equivalence relation. */
  lemma ProjectEqIsEquivalence<T>()
    ensures forall p: Project<T> :: ProjectEq(p, p)
    ensures forall p: Project<T>, q: Project<T> :: ProjectEq(p, q) <==> ProjectEq(q, p)
    ensures forall p: Project<T>, q: Project<T>, r: Project<T> :: ProjectEq(p, q) && ProjectEq(q, r) ==> ProjectEq(p, r)
  {
  }

  /** The derived `Default`: identifier zero and every text and list empty. */
  function DefaultProject<T>(): (p: Project<T>)
    ensures p.id == 0 && p.name == "" && p.description == ""
    ensures |p.images| == 0 && |p.links| == 0
  {
    Project(0, "", "", [], [])
  }

  /** A project compares equal to the default exactly when it has identifier
      zero and an empty name, whatever else it holds. */
  lemma DefaultProjectEq<T>(p: Project<T>)
    ensures ProjectEq(p, DefaultProject()) <==> p.id == 0 && p.name == ""
  {
  }

  /** The derived `Default` of `Links`: three empty strings. */
  function DefaultLinks(): (l: Links)
    ensures l.url == "" && l.icon == "" && l.name == ""
  {
    Links("", "", "")
  }
}
