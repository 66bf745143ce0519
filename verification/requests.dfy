/**
 * The request objects of the command/query layer and the declarative
 * validation of their annotated fields. Validation follows
 * `Validator.TryValidateObject` with all properties validated: properties in
 * declaration order, and a failing `[Required]` hides the other attributes
 * of the same property.
 */
module Requests {
  import opened Optional
  import opened Domain
  import opened Annotations

  datatype CreateProductCommand = CreateProductCommand(name: Option<string>, isAvailable: Option<bool>)

  datatype UpdateProductCommand = UpdateProductCommand(
    productKey: Option<ProductKey>,
    name: Option<string>,
    isAvailable: Option<bool>)

  datatype DeleteProductCommand = DeleteProductCommand(productKey: Option<ProductKey>)

  datatype GetAllProductsQuery = GetAllProductsQuery(filterByEmail: Option<string>)

  datatype GetProductByKeyQuery = GetProductByKeyQuery(productKey: Option<ProductKey>)

  /** The request of the service variant. */
  datatype ProductRequest = ProductRequest(
    produceDate: Option<Time>,
    manufactureEmail: Option<string>,
    name: Option<string>,
    manufacturePhone: Option<string>,
    isAvailable: Option<bool>)

  datatype RegisterDTO = RegisterDTO(
    email: Option<string>,
    phone: Option<string>,
    password: Option<string>,
    confirmPassword: Option<string>)

  /** One validation result: the member it names and its message. */
  datatype FieldError = FieldError(member: string, message: string)

  const NameMaxLength: nat := 50
  const EmailMaxLength: nat := 60
  const PhoneLength: nat := 11

  const NameBlank := FieldError("Name", "The 'Product Name' Can't Be Blank!!!")
  const NameTooLong := FieldError("Name", "The 'Product Name' Can't Be More Than 50 Characters")
  const AvailabilityMissing := FieldError("IsAvailable", "The 'Availability of Product' should be specified!!!")
  const DateMissing := FieldError("ProduceDate", "The 'Product Date and Time' Can't Be Blank!!!")
  const EmailBlank := FieldError("ManufactureEmail", "The 'Email' Can't Be Blank!!!")
  const EmailTooLong := FieldError("ManufactureEmail", "The 'Email' Can't Be More Than 60 Characters")
  const EmailMalformed := FieldError("ManufactureEmail", "The 'Email' is not in a Correct Format")
  const PhoneWrongLength := FieldError("ManufacturePhone", "The 'Phone Number' must be 11 Characters")
  const PhoneMalformed := FieldError("ManufacturePhone", "The Number Should be '0XXXXXXXXXX'")
  const RegisterEmailBlank := FieldError("Email", "The 'Email' Can't Be Blank!!!")
  const RegisterEmailTooLong := FieldError("Email", "The 'Email' Can't Be More Than 60 Characters")
  const RegisterEmailMalformed := FieldError("Email", "The 'Email' is not in a Correct Format")
  const RegisterPhoneWrongLength := FieldError("Phone", "The 'Phone Number' must be 11 Characters")
  const RegisterPhoneMalformed := FieldError("Phone", "The Number Should be '0XXXXXXXXXX'")
  const PasswordBlank := FieldError("Password", "Password can't be blank")
  const ConfirmBlank := FieldError("ConfirmPassword", "Confirm Password can't be blank")
  const ConfirmMismatch := FieldError("ConfirmPassword", "Password and confirm password do not match")

  /** A `[Required, StringLength(max)]` product name. */
  predicate ValidName(name: Option<string>) {
    RequiredString(name) && StringLength(name, NameMaxLength)
  }

  /** The optional phone: 11 characters and the `0XXXXXXXXXX` pattern. */
  predicate ValidPhone(phone: Option<string>) {
    StringLengthBetween(phone, PhoneLength, PhoneLength) && PhoneRegex(phone)
  }

  /** A `[Required, StringLength(60), EmailAddress]` email. */
  predicate ValidEmail(isEmail: string -> bool, email: Option<string>) {
    RequiredString(email) && StringLength(email, EmailMaxLength) && EmailAddress(isEmail, email)
  }

  /** The annotations of CreateProductCommand. */
  predicate ValidCreateCommand(c: CreateProductCommand) {
    ValidName(c.name) && Required(c.isAvailable)
  }

  /** The annotations of UpdateProductCommand (the key field carries none). */
  predicate ValidUpdateCommand(c: UpdateProductCommand) {
    ValidName(c.name) && Required(c.isAvailable)
  }

  /** The annotations of ProductRequest. */
  predicate ValidProductRequest(isEmail: string -> bool, r: ProductRequest) {
    && Required(r.produceDate)
    && ValidEmail(isEmail, r.manufactureEmail)
    && ValidName(r.name)
    && ValidPhone(r.manufacturePhone)
    && Required(r.isAvailable)
  }

  /** The annotations of RegisterDTO; Phone is not `[Required]`. */
  predicate ValidRegistration(isEmail: string -> bool, r: RegisterDTO) {
    && ValidEmail(isEmail, r.email)
    && ValidPhone(r.phone)
    && RequiredString(r.password)
    && RequiredString(r.confirmPassword)
    && Compare(r.confirmPassword, r.password)
  }

  /** Errors of a `[Required, StringLength(max)]` string property. */
  function RequiredBoundedErrors(s: Option<string>, max: nat, blank: FieldError, tooLong: FieldError): (es: seq<FieldError>)
    ensures |es| <= 1
    ensures |es| == 0 <==> RequiredString(s) && StringLength(s, max)
  {
    if !RequiredString(s) then [blank]
    else if !StringLength(s, max) then [tooLong]
    else []
  }

  /** Errors of an email property: Required first, then length and format. */
  function EmailErrors(isEmail: string -> bool, s: Option<string>, blank: FieldError, tooLong: FieldError,
                       malformed: FieldError): (es: seq<FieldError>)
    ensures |es| == 0 <==> ValidEmail(isEmail, s)
    ensures |es| <= 2
  {
    if !RequiredString(s) then [blank]
    else (if !StringLength(s, EmailMaxLength) then [tooLong] else [])
         + (if !EmailAddress(isEmail, s) then [malformed] else [])
  }

  /** Errors of a phone property: both attributes are checked. */
  function PhoneErrors(s: Option<string>, wrongLength: FieldError, malformed: FieldError): (es: seq<FieldError>)
    ensures |es| == 0 <==> ValidPhone(s)
  {
    (if !StringLengthBetween(s, PhoneLength, PhoneLength) then [wrongLength] else [])
    + (if !PhoneRegex(s) then [malformed] else [])
  }

  /** The validation results of a CreateProductCommand. */
  function CreateCommandErrors(c: CreateProductCommand): (es: seq<FieldError>)
    ensures |es| == 0 <==> ValidCreateCommand(c)
    ensures forall e :: e in es ==> e.member == "Name" || e.member == "IsAvailable"
    ensures AvailabilityMissing in es <==> c.isAvailable.None?
  {
    RequiredBoundedErrors(c.name, NameMaxLength, NameBlank, NameTooLong)
    + (if !Required(c.isAvailable) then [AvailabilityMissing] else [])
  }

  /** The validation results of an UpdateProductCommand. */
  function UpdateCommandErrors(c: UpdateProductCommand): (es: seq<FieldError>)
    ensures |es| == 0 <==> ValidUpdateCommand(c)
    ensures forall e :: e in es ==> e.member == "Name" || e.member == "IsAvailable"
  {
    RequiredBoundedErrors(c.name, NameMaxLength, NameBlank, NameTooLong)
    + (if !Required(c.isAvailable) then [AvailabilityMissing] else [])
  }

  /** The validation results of a ProductRequest. */
  function ProductRequestErrors(isEmail: string -> bool, r: ProductRequest): (es: seq<FieldError>)
    ensures |es| == 0 <==> ValidProductRequest(isEmail, r)
    ensures DateMissing in es <==> r.produceDate.None?
    ensures AvailabilityMissing in es <==> r.isAvailable.None?
  {
    (if !Required(r.produceDate) then [DateMissing] else [])
    + EmailErrors(isEmail, r.manufactureEmail, EmailBlank, EmailTooLong, EmailMalformed)
    + RequiredBoundedErrors(r.name, NameMaxLength, NameBlank, NameTooLong)
    + PhoneErrors(r.manufacturePhone, PhoneWrongLength, PhoneMalformed)
    + (if !Required(r.isAvailable) then [AvailabilityMissing] else [])
  }

  /** The validation results of a RegisterDTO. */
  function RegistrationErrors(isEmail: string -> bool, r: RegisterDTO): (es: seq<FieldError>)
    ensures |es| == 0 <==> ValidRegistration(isEmail, r)
    ensures ConfirmMismatch in es <==> RequiredString(r.confirmPassword) && r.confirmPassword != r.password
  {
    EmailErrors(isEmail, r.email, RegisterEmailBlank, RegisterEmailTooLong, RegisterEmailMalformed)
    + PhoneErrors(r.phone, RegisterPhoneWrongLength, RegisterPhoneMalformed)
    + (if !RequiredString(r.password) then [PasswordBlank] else [])
    + (if !RequiredString(r.confirmPassword) then [ConfirmBlank]
       else if !Compare(r.confirmPassword, r.password) then [ConfirmMismatch]
       else [])
  }

  /** A valid request carries a name that passes the handlers' own
      null-or-empty guard and fits the 50-character limit. */
  lemma ValidNameIsNonEmpty(name: Option<string>)
    ensures ValidName(name) ==> name.Some? && 0 < |name.value| <= NameMaxLength
  {
  }

  /** A valid service request passes the create command's annotations for
      the same Name and IsAvailable. */
  lemma ValidRequestIsValidCommand(isEmail: string -> bool, r: ProductRequest)
    ensures ValidProductRequest(isEmail, r) ==> ValidCreateCommand(CreateProductCommand(r.name, r.isAvailable))
  {
  }
}
