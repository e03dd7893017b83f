/** The weather code tables (WeatherService): the WMO weather code reported
    by the forecast provider, mapped to a Portuguese description and to an
    icon name. Fetching and caching the forecast are not modelled. */
module Weather {
  import opened Common

  /** The codes the tables know; every other code is "unknown". */
  const KnownCodes: set<int> := {0, 1, 2, 3, 61, 63, 65, 80, 81, 82}

  const UnknownDescription: string := "Condição desconhecida"

  /** MapWeatherCodeToDescription. */
  function Description(code: Int32): (d: string)
    ensures d == UnknownDescription <==> code !in KnownCodes
    ensures |d| > 0
  {
    match code
    case 0 => "Céu limpo"
    case 1 => "Maioritariamente limpo"
    case 2 => "Parcialmente nublado"
    case 3 => "Nublado"
    case 61 => "Chuva fraca"
    case 63 => "Chuva moderada"
    case 65 => "Chuva forte"
    case 80 => "Aguaceiros fracos"
    case 81 => "Aguaceiros moderados"
    case 82 => "Aguaceiros fortes"
    case _ => UnknownDescription
  }

  /** MapWeatherCodeToIcon. */
  function Icon(code: Int32): (icon: string)
    ensures icon == "unknown" <==> code !in KnownCodes
    ensures icon == "sunny" <==> code == 0
    ensures icon == "cloudy" <==> code == 1 || code == 2
    ensures icon == "overcast" <==> code == 3
    ensures icon == "rain" <==> code == 61 || code == 63 || code == 65
    ensures icon == "showers" <==> 80 <= code <= 82
  {
    match code
    case 0 => "sunny"
    case 1 => "cloudy"
    case 2 => "cloudy"
    case 3 => "overcast"
    case 61 => "rain"
    case 63 => "rain"
    case 65 => "rain"
    case 80 => "showers"
    case 81 => "showers"
    case 82 => "showers"
    case _ => "unknown"
  }

  /** Distinct known codes have distinct descriptions. */
  lemma DescriptionsDistinguishKnownCodes(a: Int32, b: Int32)
    requires a in KnownCodes && a != b
    ensures Description(a) != Description(b)
  {
  }

  /** The icon is a coarsening of the description: codes with the same
      description share the icon, and the two tables agree on which codes
      are unknown. */
  lemma IconFollowsDescription(a: Int32, b: Int32)
    ensures Description(a) == Description(b) ==> Icon(a) == Icon(b)
    ensures Icon(a) == "unknown" <==> Description(a) == UnknownDescription
  {
    if a in KnownCodes && a != b {
      DescriptionsDistinguishKnownCodes(a, b);
    }
  }
}
