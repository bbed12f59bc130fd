/** The course data the format reads from the host, passed in as plain values:
    the sections in section-number order and the course settings the rules consult. */
module Course {

  /** `COURSE_DISPLAY_MULTIPAGE`: every section on a page of its own. */
  const CourseDisplayMultipage := 1

  /** One section as the rules see it: the format option `level`
      (0 for a top-level tab, 1 for a child tab), the host's visibility flags,
      its display name and the format option `firsttabtext`. */
  datatype Section = Section(
    level: int,
    visible: bool,
    available: bool,
    uservisible: bool,
    name: string,
    firstTabText: string)

  /** The course's sections, indexed by section number; section 0 always exists,
      so the last section number (`MAX(section)`) is `|ss| - 1`. */
  type Sections = ss: seq<Section> | |ss| > 0 witness [Section(0, true, true, true, "", "")]

  function NumSections(ss: Sections): nat {
    |ss| - 1
  }

  predicate IsMultipage(courseDisplay: int) {
    courseDisplay == CourseDisplayMultipage
  }

  /** The first section that gets a tab: section 0 is the general section shown
      above the tabs in multipage mode. */
  function FirstSection(courseDisplay: int): nat {
    if IsMultipage(courseDisplay) then 1 else 0
  }

  /** The section is visible and its availability conditions are met. */
  predicate Open(s: Section) {
    s.visible && s.available
  }
}
