/**
 * Spray-timing advice of `get_live_weather` (script.py). The HTTP request to
 * Open-Meteo and the JSON lookup are the collaborator: their outcome reaches
 * the model as the temperature they produced, or None when anything in them
 * raised.
 */
module Weather {
  import opened Wrappers

  const TooHot: string := "⚠️ ZA GORĄCO dla pyretroidów (np. Decis). Użyj Mospilan."
  const TooCold: string := "❄️ ZA ZIMNO na opryski. Skuteczność będzie znikoma."
  const ConditionsOk: string := "✅ WARUNKI OK dla większości środków (optimum 10-20°C)."
  const ConnectionError: string := "❌ Błąd połączenia z serwerem pogodowym."

  /** The advice for a fetched temperature: too hot above 20, too cold below 5, fine in between (both ends included). */
  function SprayAdvice(temp: real): (advice: string)
    ensures advice == TooHot <==> temp > 20.0
    ensures advice == TooCold <==> temp < 5.0
    ensures advice == ConditionsOk <==> 5.0 <= temp <= 20.0
    ensures advice in {TooHot, TooCold, ConditionsOk} && advice != ConnectionError
  {
    if temp > 20.0 then TooHot
    else if temp < 5.0 then TooCold
    else ConditionsOk
  }

  /**
   * The pair `get_live_weather` returns, given what the fetch produced: the
   * temperature and its advice, or None and the connection-error message.
   */
  function LiveWeather(fetched: Option<real>): (r: (Option<real>, string))
    ensures r.0 == fetched
    ensures r.1 == ConnectionError <==> fetched.None?
    ensures fetched.Some? ==> r.1 == SprayAdvice(fetched.value)
    ensures fetched.Some? ==> r.1 in {TooHot, TooCold, ConditionsOk}
  {
    match fetched
    case None => (None, ConnectionError)
    case Some(t) => (Some(t), SprayAdvice(t))
  }
}
