/** The Course record and the field-update rules of the two course-edit
    handlers (admin_course_edit and edit_course in courses/views.py). */
module Catalog {
  import opened Common
  import Forms

  /** A Course row. `instructor` is the owning instructor's user id; the price
      is in cents. The thumbnail and creation time are not modelled. */
  datatype Course = Course(
    title: string,
    description: string,
    instructor: UserId,
    price: int,
    isPaid: bool,
    category: string,
    isActive: bool,
    isFeatured: bool)

  /** The POST fields an edit request may carry; None is a field left out of
      the request. `instructor` is the instructor id the admin form selects. */
  datatype EditForm = EditForm(
    title: Option<string>,
    description: Option<string>,
    instructor: Option<UserId>,
    price: Option<int>,
    category: Option<string>,
    isPaid: Option<string>,
    isActive: Option<string>,
    isFeatured: Option<string>)

  /** A checkbox is ticked only when its posted value is exactly "on". */
  predicate Checked(v: Option<string>) {
    v == Some("on")
  }

  /** admin_course_edit: text fields and price fall back to their old values,
      the instructor is the one looked up from the form, and every checkbox
      becomes false unless posted as "on". */
  function AdminEdit(c: Course, f: EditForm, instructor: UserId): (r: Course)
    ensures f.title.None? ==> r.title == c.title
    ensures f.description.None? ==> r.description == c.description
    ensures f.price.None? ==> r.price == c.price
    ensures f.category.None? ==> r.category == c.category
    ensures f.title.Some? ==> r.title == f.title.value
    ensures f.description.Some? ==> r.description == f.description.value
    ensures f.price.Some? ==> r.price == f.price.value
    ensures f.category.Some? ==> r.category == f.category.value
    ensures r.instructor == instructor
    ensures r.isPaid <==> f.isPaid == Some("on")
    ensures r.isActive <==> f.isActive == Some("on")
    ensures r.isFeatured <==> f.isFeatured == Some("on")
  {
    c.(title := f.title.GetOr(c.title),
       description := f.description.GetOr(c.description),
       instructor := instructor,
       price := f.price.GetOr(c.price),
       isPaid := Checked(f.isPaid),
       category := f.category.GetOr(c.category),
       isActive := Checked(f.isActive),
       isFeatured := Checked(f.isFeatured))
  }

  /** edit_course: the same rules for title, description, price, paid flag and
      category; the owner, active and featured flags are never touched. */
  function InstructorEdit(c: Course, f: EditForm): (r: Course)
    ensures f.title.None? ==> r.title == c.title
    ensures f.description.None? ==> r.description == c.description
    ensures f.price.None? ==> r.price == c.price
    ensures f.category.None? ==> r.category == c.category
    ensures f.title.Some? ==> r.title == f.title.value
    ensures f.description.Some? ==> r.description == f.description.value
    ensures f.price.Some? ==> r.price == f.price.value
    ensures f.category.Some? ==> r.category == f.category.value
    ensures r.isPaid <==> f.isPaid == Some("on")
    ensures r.instructor == c.instructor && r.isActive == c.isActive && r.isFeatured == c.isFeatured
  {
    c.(title := f.title.GetOr(c.title),
       description := f.description.GetOr(c.description),
       price := f.price.GetOr(c.price),
       isPaid := Checked(f.isPaid),
       category := f.category.GetOr(c.category))
  }

  /** Submitting the same form twice leaves the course as one submission does. */
  lemma EditsIdempotent(c: Course, f: EditForm, instructor: UserId)
    ensures AdminEdit(AdminEdit(c, f, instructor), f, instructor) == AdminEdit(c, f, instructor)
    ensures InstructorEdit(InstructorEdit(c, f), f) == InstructorEdit(c, f)
  {
  }

  /** The instructor's edit is the admin's edit with the owner kept and the
      active and featured flags carried over. */
  lemma InstructorEditIsRestrictedAdminEdit(c: Course, f: EditForm)
    ensures InstructorEdit(c, f) ==
            AdminEdit(c, f.(isActive := if c.isActive then Some("on") else None,
                            isFeatured := if c.isFeatured then Some("on") else None),
                      c.instructor)
  {
  }

  /** Neither edit re-checks the price/paid rule of CourseForm.clean_price:
      posting a positive price without the paid checkbox yields a free course
      with a positive price, which clean_price would refuse. */
  lemma EditsSkipPriceValidation(c: Course)
    ensures var f := EditForm(None, None, None, Some(500), None, None, None, None);
            var r := InstructorEdit(c, f);
            !r.isPaid && r.price == 500 && Forms.CleanPrice(r.price, r.isPaid).Failure? &&
            AdminEdit(c, f, c.instructor) == r.(isActive := false, isFeatured := false)
  {
  }
}
