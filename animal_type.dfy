/** The `AnimalType` enumeration and its string values. */
module Animals {
  import opened Common

  datatype AnimalType = Dog | Cat | Bird | Fish | Rabbit | Hamster | Reptile | Other

  /** The member's `.value`. */
  function Value(a: AnimalType): string
  {
    match a
    case Dog => "Dog"
    case Cat => "Cat"
    case Bird => "Bird"
    case Fish => "Fish"
    case Rabbit => "Rabbit"
    case Hamster => "Hamster"
    case Reptile => "Reptile"
    case Other => "Other"
  }

  /** `AnimalType(v)`: the member whose value is `v`; `None` stands for the
      `ValueError` raised for any other string. */
  function FromValue(v: string): (r: Option<AnimalType>)
    ensures r.Some? ==> Value(r.value) == v
  {
    match v
    case "Dog" => Some(Dog)
    case "Cat" => Some(Cat)
    case "Bird" => Some(Bird)
    case "Fish" => Some(Fish)
    case "Rabbit" => Some(Rabbit)
    case "Hamster" => Some(Hamster)
    case "Reptile" => Some(Reptile)
    case "Other" => Some(Other)
    case _ => None
  }

  /** Looking a member up by its value gives the member back, so distinct
      members have distinct values. */
  lemma FromValueOfValue(a: AnimalType)
    ensures FromValue(Value(a)) == Some(a)
  {
  }

  /** A string is accepted exactly when it is some member's value. */
  lemma FromValueTotalOnValues(v: string)
    ensures FromValue(v).None? <==> forall a: AnimalType :: Value(a) != v
  {
    if FromValue(v).None? {
      forall a: AnimalType ensures Value(a) != v {
        FromValueOfValue(a);
      }
    }
  }
}
