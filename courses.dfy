/** The catalogue's data model: one course record and the table that maps normalised course
    numbers to records. */
module Courses {
  import opened Normalize

  datatype Option<T> = None | Some(value: T)

  /** One catalogue entry: its title, its number as written in the file, and the numbers of its
      prerequisites as written in the file (not normalised). */
  datatype Course = Course(courseName: string, courseNum: string, prereq: seq<string>)

  /** Every key is the normalised form of the course number stored under it. */
  ghost predicate WellKeyed(m: map<string, Course>) {
    forall k :: k in m ==> k == Key(m[k].courseNum)
  }

  /** The hash table that `main` owns and hands by reference to the loader and the lookup. */
  class CourseTable {
    var entries: map<string, Course>

    constructor ()
      ensures entries == map[]
    {
      entries := map[];
    }
  }

  /** In a well-keyed table no two entries share a course number. */
  lemma WellKeyedNumbersDistinct(m: map<string, Course>, k1: string, k2: string)
    requires WellKeyed(m) && k1 in m && k2 in m && k1 != k2
    ensures m[k1].courseNum != m[k2].courseNum
  {
  }
}
