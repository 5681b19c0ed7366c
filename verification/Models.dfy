/** The records of internal/models and the outcome types shared by every module.
    A `string` stands for a Go string: the sequence of its bytes. */
module Models {
  datatype Option<+T> = None | Some(value: T)

  datatype Result<+T> = Success(value: T) | Failure(error: Error)

  /** One constructor per error message the modelled code can return. */
  datatype Error =
    | StorageFailed
    | IssuedToRequired | IssuedByRequired | QuantityNotPositive | ItemIdRequired
    | IssuerNotFound | IssuerNotWarehouse | RecipientNotFound | ItemNotFound
    | NotEnoughStock(available: int, requested: int)
    | NegativeQuantity | InsufficientStock | DuplicateId
    | TransactionIdRequired | ReturnedByRequired | ReceivedByRequired
    | TransactionNotFound | ReceiverNotFound | ReceiverNotWarehouse | ReturnExceedsIssue
    | NameRequired | SizeRequired | IssueDateMalformed | ExpiryDateMalformed | DatesOutOfOrder
    | EmployeeIdRequired | DepartmentRequired | RoleUnknown
    | NotWarehouseStaff | NoDepartments
    | EmailRequired | PasswordTooShort | NotWarehouseEmployee | EmailTaken | HashFailed
    | AccountNotFound | WrongPassword | CredentialsRequired | InvalidCredentials | ApprovalPending

  datatype Item = Item(id: string, name: string, size: string, quantity: int, issueDate: string, expiryDate: string)

  datatype User = User(id: string, employeeId: string, name: string, departmentId: string, role: string)

  datatype Department = Department(id: string, name: string)

  datatype Transaction = Transaction(
    id: string, itemId: string, itemName: string, quantity: int,
    issuedToUserId: string, issuedByUserId: string, departmentId: string, timestamp: string)

  datatype Return = Return(
    id: string, transactionId: string, itemId: string, quantityReturned: int,
    returnedByUserId: string, receivedByUserId: string, departmentId: string, timestamp: string)

  datatype Account = Account(
    id: string, name: string, email: string, passwordHash: string,
    isWarehouseWorker: bool, isApproved: bool, isAdmin: bool, mustResetPassword: bool,
    createdAt: string, updatedAt: string)

  /** What the file system does to one repository call. `readAll` and `writeAll`
      either work or fail and leave the file as it was. */
  datatype Disk = Works | ReadFails | WriteFails

  const WAREHOUSE := "warehouse"
}
