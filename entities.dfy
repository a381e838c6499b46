/** The Seller entity. Birth date, base salary and department are values the
    service only copies, so each is kept as an opaque wrapper. */
module Entities {
  import opened Wrappers

  /** A calendar date, counted in days; never computed with here. */
  datatype Date = Date(epochDay: int)

  /** A base salary; never computed with here. */
  datatype Salary = Salary(amount: int)

  /** The department a seller belongs to, known only by its identifier. */
  datatype DepartmentRef = DepartmentRef(departmentId: int)

  /** The values of all fields of a seller at one moment. */
  datatype SellerData = SellerData(
    id: Option<int>,
    name: string,
    email: string,
    birthDate: Date,
    baseSalary: Salary,
    department: DepartmentRef)

  /** A seller record as an object whose fields are set one by one. The id is
      None until the store assigns one. */
  class Seller {
    var id: Option<int>
    var name: string
    var email: string
    var birthDate: Date
    var baseSalary: Salary
    var department: DepartmentRef

    constructor (id: Option<int>, name: string, email: string,
                 birthDate: Date, baseSalary: Salary, department: DepartmentRef)
      ensures Data() == SellerData(id, name, email, birthDate, baseSalary, department)
    {
      this.id := id;
      this.name := name;
      this.email := email;
      this.birthDate := birthDate;
      this.baseSalary := baseSalary;
      this.department := department;
    }

    /** The current values of this seller's fields. */
    function Data(): SellerData
      reads this
    {
      SellerData(id, name, email, birthDate, baseSalary, department)
    }
  }
}
