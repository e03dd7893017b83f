/** Worker roles and their JSON form (WorkerRoleJsonConverter). */
module Roles {
  import opened Common

  /** The WorkerRole enum, in declaration order (values 0..3). */
  datatype WorkerRole = NadadorSalvador | Bar | Vigilante | Bilheteira

  /** The enum member name (`ToString()`). */
  function RoleName(r: WorkerRole): string {
    match r
    case NadadorSalvador => "NadadorSalvador"
    case Bar => "Bar"
    case Vigilante => "Vigilante"
    case Bilheteira => "Bilheteira"
  }

  /** The underlying integer value of each role. */
  function RoleValue(r: WorkerRole): (n: int)
    ensures 0 <= n <= 3
  {
    match r
    case NadadorSalvador => 0
    case Bar => 1
    case Vigilante => 2
    case Bilheteira => 3
  }

  /** Distinct roles have distinct names and distinct values. */
  lemma RoleNameAndValueInjective(a: WorkerRole, b: WorkerRole)
    requires a != b
    ensures RoleName(a) != RoleName(b) && RoleValue(a) != RoleValue(b)
  {
  }

  /** The accepted role strings: the snake_case form and the PascalCase
      member name of each role, matched case-sensitively. */
  function LookupRoleString(s: string): (r: Option<WorkerRole>)
    ensures r.Some? ==> s == RoleName(r.value) || s == SnakeName(r.value)
  {
    match s
    case "nadador_salvador" => Some(NadadorSalvador)
    case "NadadorSalvador" => Some(NadadorSalvador)
    case "bar" => Some(Bar)
    case "Bar" => Some(Bar)
    case "vigilante" => Some(Vigilante)
    case "Vigilante" => Some(Vigilante)
    case "bilheteira" => Some(Bilheteira)
    case "Bilheteira" => Some(Bilheteira)
    case _ => None
  }

  /** The snake_case spelling of each role. */
  function SnakeName(r: WorkerRole): string {
    match r
    case NadadorSalvador => "nadador_salvador"
    case Bar => "bar"
    case Vigilante => "vigilante"
    case Bilheteira => "bilheteira"
  }

  /** The JSON token the converter is positioned on. A number token carries
      its integral value; whether it fits an `int` is checked on reading. */
  datatype JsonToken =
    | StringToken(text: string)
    | NumberToken(number: int)
    | NullToken
    | OtherToken

  /** Why a token could not be read as a role. */
  datatype ReadError = UnknownRoleName(text: string) | UndefinedRoleValue(number: int) | NotARoleToken

  /** Read: a known role string, or a number that is a defined enum value;
      anything else is an error. */
  function Read(token: JsonToken): (r: Result<WorkerRole, ReadError>)
    ensures token.StringToken? && r.Success? ==>
      token.text == RoleName(r.value) || token.text == SnakeName(r.value)
    ensures token.NumberToken? && r.Success? ==> RoleValue(r.value) == token.number
    ensures token.NullToken? || token.OtherToken? ==> r.Failure?
  {
    match token
    case StringToken(s) =>
      (match LookupRoleString(s)
       case Some(role) => Success(role)
       case None => Failure(UnknownRoleName(s)))
    case NumberToken(n) =>
      if n == 0 then Success(NadadorSalvador)
      else if n == 1 then Success(Bar)
      else if n == 2 then Success(Vigilante)
      else if n == 3 then Success(Bilheteira)
      else Failure(UndefinedRoleValue(n))
    case NullToken => Failure(NotARoleToken)
    case OtherToken => Failure(NotARoleToken)
  }

  /** Write: the PascalCase member name, as a string token. */
  function Write(role: WorkerRole): (token: JsonToken)
    ensures token.StringToken? && token.text == RoleName(role)
    ensures token.text != SnakeName(role)
  {
    StringToken(RoleName(role))
  }

  /** Reading what was written gives the role back. */
  lemma ReadWriteRoundTrip(role: WorkerRole)
    ensures Read(Write(role)) == Success(role)
  {
  }

  /** Each role is read from both its snake_case and its PascalCase string. */
  lemma BothSpellingsRead(role: WorkerRole)
    ensures Read(StringToken(SnakeName(role))) == Success(role)
    ensures Read(StringToken(RoleName(role))) == Success(role)
  {
  }

  /** A number is read exactly when it is a defined enum value, and then it
      names the role with that value. */
  lemma NumberReadIffDefined(n: int)
    ensures Read(NumberToken(n)).Success? <==> 0 <= n <= 3
    ensures Read(NumberToken(n)).Success? ==> RoleValue(Read(NumberToken(n)).value) == n
  {
  }

  /** A string is read exactly when it is one of the eight spellings; other
      casings, such as all capitals, are rejected. */
  lemma StringReadIffKnownSpelling(s: string)
    ensures Read(StringToken(s)).Success? <==>
      exists role: WorkerRole :: s == RoleName(role) || s == SnakeName(role)
    ensures Read(StringToken("BAR")).Failure?
  {
    if Read(StringToken(s)).Failure? {
      forall role: WorkerRole ensures s != RoleName(role) && s != SnakeName(role) {
        BothSpellingsRead(role);
      }
    }
  }
}
