/**
 * The user registration flow, create_new_user on a POST: strip the
 * submitted name, refuse it when empty or already in column A, otherwise
 * append it as a new row.
 */
module Registration {
  import opened Grid
  import opened Text
  import opened Gateway

  datatype Option<T> = None | Some(value: T)

  /** The page create_new_user renders, by the branch that chose it. */
  datatype RegistrationOutcome =
    | EmptyName                    // the form is shown again: the name is empty
    | AlreadyExists(name: string)  // the form is shown again: name is taken
    | Registered(name: string)     // the success page for name

  /** The submitted name field, "" when the form does not carry one. */
  function FormName(field: Option<string>): string {
    match field
    case None => ""
    case Some(s) => s
  }

  /**
   * create_new_user on a POST, as a function of the sheet before the
   * request and the submitted field: the new sheet and the outcome.
   */
  function Register(g: Grid, field: Option<string>): (r: (Grid, RegistrationOutcome))
    ensures r.1 == EmptyName <==> AllSpace(FormName(field))
    ensures r.1.AlreadyExists? <==> !AllSpace(FormName(field)) && Strip(FormName(field)) in NameColumn(g)
    ensures !r.1.EmptyName? ==> r.1.name == Strip(FormName(field))
    ensures !r.1.Registered? ==> r.0 == g
    ensures r.1.Registered? ==> NameColumn(r.0) == NameColumn(g) + [r.1.name]
    ensures r.1.Registered? && NameColumn(g) != [] ==> HeaderRow(r.0) == HeaderRow(g)
    ensures r.1.Registered? ==> var k := |NameColumn(g)|;
      && k <= |g| && |r.0| == |g| + 1 && r.0[..k] == g[..k]
      && forall i: nat, j: nat :: CellAt(r.0, i, j) == ShiftedDown(g, k, [r.1.name], i, j)
  {
    var name := Strip(FormName(field));
    if name == "" then (g, EmptyName)
    else if name in NameColumn(g) then (g, AlreadyExists(name))
    else
      assert |NameColumn(g)| <= |g|;
      AppendRowNameColumn(g, name);
      AppendRowKeepsHeaderRow(g, name);
      (AppendRow(g, name), Registered(name))
  }

  /** Submitting the same field again is refused as a duplicate and changes nothing. */
  lemma RegisterTwice(g: Grid, field: Option<string>)
    requires Register(g, field).1.Registered?
    ensures var g' := Register(g, field).0;
      Register(g', field) == (g', AlreadyExists(Strip(FormName(field))))
  {
    var name := Strip(FormName(field));
    var g' := Register(g, field).0;
    assert NameColumn(g') == NameColumn(g) + [name];
    assert name in NameColumn(g');
  }

  /**
   * Column A is read from row 1, so a name equal to the label in A1 counts
   * as taken and is refused.
   */
  lemma HeaderLabelRefused(g: Grid, field: Option<string>)
    requires Strip(FormName(field)) != "" && CellAt(g, 0, 0) == Strip(FormName(field))
    ensures Register(g, field).1.AlreadyExists?
  {
    assert ColumnAt(g, 0)[0] == CellAt(g, 0, 0);
    NameColumnCell(g, 0);
  }

  /** create_new_user on a POST, step by step against the sheet. */
  method CreateNewUser(sheet: Sheet, field: Option<string>) returns (outcome: RegistrationOutcome)
    modifies sheet
    ensures sheet.rows == Register(old(sheet.rows), field).0
    ensures outcome == Register(old(sheet.rows), field).1
  {
    var name := Strip(FormName(field));
    if name == "" {
      return EmptyName;
    }
    var names := sheet.GetNames();
    if name in names {
      return AlreadyExists(name);
    }
    sheet.AppendName(name);
    return Registered(name);
  }
}
