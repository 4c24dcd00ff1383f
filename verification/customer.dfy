/** MyCustomers.Domain/Customers/Customer.cs and the two customer DTOs of
    MyCustomers.Application.Contracts/Customers, with the Mapperly field copy
    of MyCustomers.Infrastructure/Customers/CustomerMapper.cs. A `Guid` is an
    integer key and a `DateTime` a tick count. */
module Customers {
  import opened Wrappers
  import opened Results
  import Text

  /** The customer aggregate. `id` has no setter: it is fixed at creation. */
  datatype Customer = Customer(
    id: int,
    name: string,
    email: string,
    number: Option<string>,
    notes: Option<string>,
    createdDate: int,
    modifiedDate: int)

  /** `IEntity<Guid>.Id`, the key the persistence layer uses. */
  function Key(c: Customer): int { c.id }

  /** The six fields an update may write. */
  datatype Field = Name | Email | Number | Notes | CreatedDate | ModifiedDate

  /** The value of a writable field, whatever its type. */
  datatype Value = Text(text: string) | MaybeText(maybe: Option<string>) | Ticks(ticks: int)

  function FieldOf(c: Customer, f: Field): Value {
    match f
    case Name => Text(c.name)
    case Email => Text(c.email)
    case Number => MaybeText(c.number)
    case Notes => MaybeText(c.notes)
    case CreatedDate => Ticks(c.createdDate)
    case ModifiedDate => Ticks(c.modifiedDate)
  }

  /** `after` differs from `before` at most in field `f`; the id never changes. */
  ghost predicate OnlyChanged(before: Customer, after: Customer, f: Field) {
    after.id == before.id && forall g :: g != f ==> FieldOf(after, g) == FieldOf(before, g)
  }

  /** A customer is determined by its id and its six fields. */
  lemma CustomerExtensionality(a: Customer, b: Customer)
    requires a.id == b.id && forall f :: FieldOf(a, f) == FieldOf(b, f)
    ensures a == b
  {
    assert FieldOf(a, Name) == FieldOf(b, Name) && FieldOf(a, Email) == FieldOf(b, Email);
    assert FieldOf(a, Number) == FieldOf(b, Number) && FieldOf(a, Notes) == FieldOf(b, Notes);
    assert FieldOf(a, CreatedDate) == FieldOf(b, CreatedDate) && FieldOf(a, ModifiedDate) == FieldOf(b, ModifiedDate);
  }

  /** `Customer.Create`: never fails; the customer holds exactly the values given. */
  function Create(id: int, name: string, email: string, number: Option<string>, notes: Option<string>,
                  createdDate: int, modifiedDate: int): (r: Result<Customer>)
    ensures r.Ok?
    ensures r.value.id == id
    ensures FieldOf(r.value, Name) == Text(name) && FieldOf(r.value, Email) == Text(email)
    ensures FieldOf(r.value, Number) == MaybeText(number) && FieldOf(r.value, Notes) == MaybeText(notes)
    ensures FieldOf(r.value, CreatedDate) == Ticks(createdDate)
    ensures FieldOf(r.value, ModifiedDate) == Ticks(modifiedDate)
  {
    Ok(Customer(id, name, email, number, notes, createdDate, modifiedDate))
  }

  /** `UpdateName`. Each setter answers the updated customer and its result. */
  function UpdateName(c: Customer, name: string): (r: (Customer, Result<()>))
    ensures r.1.Ok? && OnlyChanged(c, r.0, Name) && FieldOf(r.0, Name) == Text(name)
  {
    (c.(name := name), Ok(()))
  }

  /** `UpdateEmail`. */
  function UpdateEmail(c: Customer, email: string): (r: (Customer, Result<()>))
    ensures r.1.Ok? && OnlyChanged(c, r.0, Email) && FieldOf(r.0, Email) == Text(email)
  {
    (c.(email := email), Ok(()))
  }

  /** `UpdateNumber`. */
  function UpdateNumber(c: Customer, number: Option<string>): (r: (Customer, Result<()>))
    ensures r.1.Ok? && OnlyChanged(c, r.0, Number) && FieldOf(r.0, Number) == MaybeText(number)
  {
    (c.(number := number), Ok(()))
  }

  /** `UpdateNotes`. */
  function UpdateNotes(c: Customer, notes: Option<string>): (r: (Customer, Result<()>))
    ensures r.1.Ok? && OnlyChanged(c, r.0, Notes) && FieldOf(r.0, Notes) == MaybeText(notes)
  {
    (c.(notes := notes), Ok(()))
  }

  /** `UpdateCreatedDate`. */
  function UpdateCreatedDate(c: Customer, createdDate: int): (r: (Customer, Result<()>))
    ensures r.1.Ok? && OnlyChanged(c, r.0, CreatedDate) && FieldOf(r.0, CreatedDate) == Ticks(createdDate)
  {
    (c.(createdDate := createdDate), Ok(()))
  }

  /** `UpdateModifiedDate`. */
  function UpdateModifiedDate(c: Customer, modifiedDate: int): (r: (Customer, Result<()>))
    ensures r.1.Ok? && OnlyChanged(c, r.0, ModifiedDate) && FieldOf(r.0, ModifiedDate) == Ticks(modifiedDate)
  {
    (c.(modifiedDate := modifiedDate), Ok(()))
  }

  /** A value of the type field `f` holds. */
  predicate Fits(f: Field, v: Value) {
    match f
    case Name => v.Text?
    case Email => v.Text?
    case Number => v.MaybeText?
    case Notes => v.MaybeText?
    case CreatedDate => v.Ticks?
    case ModifiedDate => v.Ticks?
  }

  /** The setter for field `f`, applied to `v`. */
  function Set(c: Customer, f: Field, v: Value): (Customer, Result<()>)
    requires Fits(f, v)
  {
    match f
    case Name => UpdateName(c, v.text)
    case Email => UpdateEmail(c, v.text)
    case Number => UpdateNumber(c, v.maybe)
    case Notes => UpdateNotes(c, v.maybe)
    case CreatedDate => UpdateCreatedDate(c, v.ticks)
    case ModifiedDate => UpdateModifiedDate(c, v.ticks)
  }

  /** What every setter does, stated once: it succeeds, writes `v` into `f`
      and nothing else. The setter is determined by that description. */
  lemma SetMeaning(c: Customer, f: Field, v: Value, d: Customer)
    requires Fits(f, v)
    ensures Set(c, f, v).1.Ok?
    ensures OnlyChanged(c, Set(c, f, v).0, f) && FieldOf(Set(c, f, v).0, f) == v
    ensures OnlyChanged(c, d, f) && FieldOf(d, f) == v ==> d == Set(c, f, v).0
  {
    if OnlyChanged(c, d, f) && FieldOf(d, f) == v {
      var s := Set(c, f, v).0;
      forall g ensures FieldOf(d, g) == FieldOf(s, g) {
        if g != f { assert FieldOf(d, g) == FieldOf(c, g) == FieldOf(s, g); }
      }
      CustomerExtensionality(d, s);
    }
  }

  /** Setting a field twice to the same value is setting it once. */
  lemma SetIdempotent(c: Customer, f: Field, v: Value)
    requires Fits(f, v)
    ensures Set(Set(c, f, v).0, f, v) == Set(c, f, v)
  {
  }

  /** Setters of different fields commute. */
  lemma SetCommutes(c: Customer, f: Field, v: Value, g: Field, w: Value)
    requires Fits(f, v) && Fits(g, w) && f != g
    ensures Set(Set(c, f, v).0, g, w).0 == Set(Set(c, g, w).0, f, v).0
  {
    var a := Set(Set(c, f, v).0, g, w).0;
    var b := Set(Set(c, g, w).0, f, v).0;
    forall h ensures FieldOf(a, h) == FieldOf(b, h) {
    }
    CustomerExtensionality(a, b);
  }

  /** No setter changes the id. */
  lemma SetKeepsId(c: Customer, f: Field, v: Value)
    requires Fits(f, v)
    ensures Key(Set(c, f, v).0) == Key(c)
  {
  }

  /** `CreateUpdateCustomerDto`: the six writable fields. */
  datatype CreateUpdateCustomerDto = CreateUpdateCustomerDto(
    name: string,
    email: string,
    number: Option<string>,
    notes: Option<string>,
    createdDate: int,
    modifiedDate: int)

  /** `CustomerDto`: the id and the six fields. */
  datatype CustomerDto = CustomerDto(
    id: int,
    name: string,
    email: string,
    number: Option<string>,
    notes: Option<string>,
    createdDate: int,
    modifiedDate: int)

  /** `CustomerMapper.MapToDto` (and its queryable twin `ProjectToDto`). */
  function MapToDto(c: Customer): (d: CustomerDto)
    ensures FromDto(d.id, CreateUpdateCustomerDto(d.name, d.email, d.number, d.notes, d.createdDate, d.modifiedDate)) == c
  {
    CustomerDto(c.id, c.name, c.email, c.number, c.notes, c.createdDate, c.modifiedDate)
  }

  /** The mapping loses nothing: different customers have different DTOs. */
  lemma MapToDtoInjective(a: Customer, b: Customer)
    ensures MapToDto(a) == MapToDto(b) ==> a == b
  {
  }

  /** The customer a write DTO describes, under a given id. */
  function FromDto(id: int, dto: CreateUpdateCustomerDto): (c: Customer)
    ensures Key(c) == id
  {
    Create(id, dto.name, dto.email, dto.number, dto.notes, dto.createdDate, dto.modifiedDate).value
  }

  /** The DTO read back from a customer built from a write DTO carries that
      DTO's fields and the id. */
  lemma FromDtoRoundTrip(id: int, dto: CreateUpdateCustomerDto)
    ensures var d := MapToDto(FromDto(id, dto));
      d.id == id && CreateUpdateCustomerDto(d.name, d.email, d.number, d.notes, d.createdDate, d.modifiedDate) == dto
  {
  }

  /** Running the six setters with the fields of a write DTO, as the update
      use case does, yields the customer that DTO describes under the same id. */
  function ApplyDto(c: Customer, dto: CreateUpdateCustomerDto): (r: (Customer, seq<Result<()>>))
    ensures |r.1| == 6 && forall i :: 0 <= i < 6 ==> r.1[i].Ok?
    ensures r.0 == FromDto(c.id, dto)
  {
    var (c1, nameResult) := UpdateName(c, dto.name);
    var (c2, emailResult) := UpdateEmail(c1, dto.email);
    var (c3, numberResult) := UpdateNumber(c2, dto.number);
    var (c4, notesResult) := UpdateNotes(c3, dto.notes);
    var (c5, createdDateResult) := UpdateCreatedDate(c4, dto.createdDate);
    var (c6, modifiedDateResult) := UpdateModifiedDate(c5, dto.modifiedDate);
    (c6, [nameResult, emailResult, numberResult, notesResult, createdDateResult, modifiedDateResult])
  }

  /** The text of the not-found error the customer use cases report. */
  function NotFoundMessage(id: int): string {
    "Customer with ID '" + Text.IntText(id) + "' was not found."
  }
}
