/** The two decision functions over the employee and stock types. */
module Access {
  import opened Wrappers
  import opened Decimal

  datatype Position = Maintenance | Marketing | Managers | LineSupervisor | KitchenStaff | AssemblyTechnician

  datatype Status = Active | Terminated

  datatype Employee = Employee(position: Position, status: Status)

  datatype Item = Item(name: string, number: Int32)

  /** The positions that are granted access. */
  function AccessPositions(): set<Position>
  {
    {Maintenance, Marketing, Managers}
  }

  /** `is_in_stock`: an item is out of stock exactly when its count is zero. */
  function IsInStock(item: Item): (r: Result<(), string>)
    ensures r.Err? <==> item.number == 0
    ensures r.Err? ==> r.error == "out of stock"
  {
    match item.number
    case 0 => Err("out of stock")
    case _ => Ok(())
  }

  /**
   * `try_access`: access is granted exactly to active employees in an
   * access position; a terminated employee is refused as terminated
   * whatever the position, and any other refusal is for the position.
   */
  function TryAccess(employee: Employee): (r: Result<(), string>)
    ensures r.Ok? <==> employee.status == Active && employee.position in AccessPositions()
    ensures employee.status == Terminated ==> r == Err("terminated")
    ensures employee.status == Active && employee.position !in AccessPositions() ==> r == Err("invalid position")
  {
    if employee.status == Terminated then Err("terminated")
    else
      assert employee.status == Active;
      match employee.position
      case Maintenance => Ok(())
      case Marketing => Ok(())
      case Managers => Ok(())
      case _ => Err("invalid position")
  }
}
