/** One daily weather observation and the parser that builds it from one CSV
    line (weather.cpp). The text-to-number and text-to-date conversions are Qt
    library calls whose results the parser stores without looking at them; here
    they are the functions of a `Conversions` value passed to the parser. */
module WeatherRecord {
  import opened Wrappers
  import QStrings

  /** C++ `int` and `short`: what `QString::toInt` and `QString::toShort` return
      (0 when the text is not a number in range). */
  newtype Int32 = x: int | -0x8000_0000 <= x < 0x8000_0000
  newtype Int16 = x: int | -0x8000 <= x < 0x8000

  /** A C++ `float`, kept as its bit pattern: the model never does arithmetic on it. */
  datatype Float32 = Float32(bits: bv32)

  /** A `QDateTime`. Every unparseable text yields the one invalid value, and all
      invalid values compare equal, so they are one constructor here. */
  datatype DateTime = InvalidDateTime | DateTime(msecsSinceEpoch: int)

  /** The conversions the parser calls, as functions of the field text. */
  datatype Conversions = Conversions(
    toDateTime: (string, string) -> DateTime,  // QDateTime::fromString(text, format)
    toFloat: string -> Float32,                // QString::toFloat
    toInt: string -> Int32,                    // QString::toInt
    toShort: string -> Int16                   // QString::toShort
  )

  /** The fixed format the first field is read with. */
  const DateFormat: string := "yyyy-MM-dd HH:mm:ss"

  /** A data line has exactly this many comma-separated fields. */
  const FieldCount: nat := 11

  /** The one way parsing fails: the line does not have exactly `FieldCount`
      fields. The source reports it with a single message, "To many fields in
      line", whether there were too many fields or too few. */
  datatype ParseError = WrongFieldCount(fields: nat)

  /** One observation. The source's getters return these fields unchanged. */
  datatype Weather = Weather(
    date: DateTime,
    averageTemperature: Float32,
    minimumTemperature: Float32,
    maximumTemperature: Float32,
    precipitation: Float32,
    snow: Int32,
    windDirection: Int16,
    windSpeed: Float32,
    windPeakGust: Float32,
    airPressure: Float32,
    sunshineDuration: Int32
  )

  /** Builds a record from eleven fields, each field assigned by its position. */
  function FromFields(fields: seq<string>, conv: Conversions): Weather
    requires |fields| == FieldCount
  {
    Weather(
      date := conv.toDateTime(fields[0], DateFormat),
      averageTemperature := conv.toFloat(fields[1]),
      minimumTemperature := conv.toFloat(fields[2]),
      maximumTemperature := conv.toFloat(fields[3]),
      precipitation := conv.toFloat(fields[4]),
      snow := conv.toInt(fields[5]),
      windDirection := conv.toShort(fields[6]),
      windSpeed := conv.toFloat(fields[7]),
      windPeakGust := conv.toFloat(fields[8]),
      airPressure := conv.toFloat(fields[9]),
      sunshineDuration := conv.toInt(fields[10])
    )
  }

  /** Parses one data line. It fails exactly when the line does not hold ten
      commas (eleven fields, empty ones included); the content of the fields is
      never checked, so a line with the right number of fields always parses. */
  function Parse(line: string, conv: Conversions): (r: Result<Weather, ParseError>)
    ensures r.Failure? <==> multiset(line)[','] != 10
    ensures r.Failure? ==> r.error == WrongFieldCount(multiset(line)[','] + 1)
    ensures r.Success? ==> r.value.date == conv.toDateTime(QStrings.Split(line, ',')[0], DateFormat)
  {
    var fields := QStrings.Split(line, ',');
    if |fields| != FieldCount then Failure(WrongFieldCount(|fields|))
    else Success(FromFields(fields, conv))
  }

  /** Parsing a line made by joining eleven comma-free fields stores each field
      in its place: field 0 is the date (read with `DateFormat`), then average,
      minimum and maximum temperature, precipitation, snow, wind direction, wind
      speed, peak gust, air pressure and sunshine duration. */
  lemma ParseOfJoinedFields(fields: seq<string>, conv: Conversions)
    requires |fields| == FieldCount
    requires forall i :: 0 <= i < |fields| ==> ',' !in fields[i]
    ensures Parse(QStrings.Join(fields, ','), conv) == Success(Weather(
              date := conv.toDateTime(fields[0], DateFormat),
              averageTemperature := conv.toFloat(fields[1]),
              minimumTemperature := conv.toFloat(fields[2]),
              maximumTemperature := conv.toFloat(fields[3]),
              precipitation := conv.toFloat(fields[4]),
              snow := conv.toInt(fields[5]),
              windDirection := conv.toShort(fields[6]),
              windSpeed := conv.toFloat(fields[7]),
              windPeakGust := conv.toFloat(fields[8]),
              airPressure := conv.toFloat(fields[9]),
              sunshineDuration := conv.toInt(fields[10])))
  {
    QStrings.SplitJoin(fields, ',');
  }

  /** Only the first field decides the date: two parsed lines whose first fields
      agree have the same date, whatever their other fields hold. */
  lemma DateDependsOnFirstFieldOnly(a: string, b: string, conv: Conversions)
    requires Parse(a, conv).Success? && Parse(b, conv).Success?
    requires QStrings.Split(a, ',')[0] == QStrings.Split(b, ',')[0]
    ensures Parse(a, conv).value.date == Parse(b, conv).value.date
  {
  }

  /** A line of `n` commas and nothing else. */
  function Commas(n: nat): string
  {
    if n == 0 then [] else Commas(n - 1) + [',']
  }

  lemma {:induction false} CommasCount(n: nat)
    ensures multiset(Commas(n))[','] == n
  {
    if n > 0 {
      CommasCount(n - 1);
    }
  }

  /** A line of commas only has one field more than it has commas, all of them
      empty. It parses exactly when it has ten commas; fewer fail as well as
      more, and the failure reports the field count. */
  lemma LineOfCommasOnly(n: nat, conv: Conversions)
    ensures Parse(Commas(n), conv).Success? <==> n == 10
    ensures n != 10 ==> Parse(Commas(n), conv) == Failure(WrongFieldCount(n + 1))
  {
    CommasCount(n);
  }

  /** The empty line has one (empty) field and is rejected. */
  lemma EmptyLineRejected(conv: Conversions)
    ensures Parse("", conv) == Failure(WrongFieldCount(1))
  {
  }
}
