/** The fixed registry of forum categories and its lookup by id. */
module ForumCategories {
  import opened Common
  import opened Sequences

  datatype ForumCategory = ForumCategory(id: string, name: string, icon: string, description: string)

  /** The seven categories, in display order. */
  const AllCategories: seq<ForumCategory> := [
    ForumCategory("civil", "Civil Engineering", "\U{1F3D7}\U{FE0F}",
      "Construction projects, structural design and infrastructure"),
    ForumCategory("electrical", "Electrical Engineering", "\U{26A1}",
      "Power systems, electronics and electrical networks"),
    ForumCategory("mechanical", "Mechanical Engineering", "\U{2699}\U{FE0F}",
      "Machinery, thermodynamics and manufacturing"),
    ForumCategory("software", "Software Engineering", "\U{1F4BB}",
      "Programming, app development and artificial intelligence"),
    ForumCategory("chemical", "Chemical Engineering", "\U{1F9EA}",
      "Chemical processes and petrochemical industries"),
    ForumCategory("architecture", "Architecture Engineering", "\U{1F3DB}\U{FE0F}",
      "Architectural design, urbanism and interior design"),
    ForumCategory("discussion", "General Discussion", "\U{1F4AC}",
      "General discussions and diverse engineering topics")
  ]

  /** The category's id matches `id` ignoring case. */
  predicate HasId(c: ForumCategory, id: string) {
    EqualsIgnoreCase(c.id, id)
  }

  /** The first category whose id equals `id` ignoring case, if any. */
  function GetById(id: string): (r: Option<ForumCategory>)
    ensures r.Some? ==> r.value in AllCategories && HasId(r.value, id)
    ensures r.None? <==> forall c :: c in AllCategories ==> !HasId(c, id)
    ensures r.Some? ==> exists i :: 0 <= i < |AllCategories| && AllCategories[i] == r.value
                                    && forall j :: 0 <= j < i ==> !HasId(AllCategories[j], id)
  {
    match IndexWhere(AllCategories, c => HasId(c, id))
    case None => None
    case Some(i) => Some(AllCategories[i])
  }

  /** There are seven categories and no two ids are equal ignoring case. */
  lemma CategoryIdsDistinct()
    ensures |AllCategories| == 7
    ensures forall i, j :: 0 <= i < j < |AllCategories| ==>
              Lower(AllCategories[i].id) != Lower(AllCategories[j].id)
  {
    var ids := ["civil", "electrical", "mechanical", "software", "chemical", "architecture", "discussion"];
    assert forall i :: 0 <= i < 7 ==> AllCategories[i].id == ids[i];
    forall i | 0 <= i < 7 ensures Lower(ids[i]) == ids[i] {
      LowerOfLowerCase(ids[i]);
    }
    forall i, j | 0 <= i < j < 7 ensures ids[i] != ids[j] {
      assert ids[i][0] != ids[j][0] || |ids[i]| != |ids[j]|;
    }
  }

  /** Looking up a listed id, written in any casing, finds that entry. */
  lemma GetByListedId(i: nat, id: string)
    requires i < |AllCategories| && HasId(AllCategories[i], id)
    ensures GetById(id) == Some(AllCategories[i])
  {
    CategoryIdsDistinct();
    var r := GetById(id);
    var k :| 0 <= k < |AllCategories| && AllCategories[k] == r.value
              && forall j :: 0 <= j < k ==> !HasId(AllCategories[j], id);
    assert k == i;
  }
}
