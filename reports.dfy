/**
 * The WeatherReport record: one reading of one device, with seven optional
 * metrics. The metric values are f64 in the source; nothing computes with
 * them, so here they are an opaque type parameter V.
 */
module Reports {
  import opened Wrappers

  /** The seven metric columns of the weather_reports table. */
  datatype Metric = Temperature | Humidity | Percipitation | Pm10 | Pm25 | Co2 | Tvoc

  /** The order in which save writes the metric columns. */
  const Columns: seq<Metric> := [Temperature, Humidity, Percipitation, Pm10, Pm25, Co2, Tvoc]

  /** Where a metric stands in Columns. */
  function Position(k: Metric): (i: nat)
    ensures i < |Columns| && Columns[i] == k
  {
    match k
    case Temperature => 0
    case Humidity => 1
    case Percipitation => 2
    case Pm10 => 3
    case Pm25 => 4
    case Co2 => 5
    case Tvoc => 6
  }

  /** The metrics a report carries; a metric missing from the map is None (NULL). */
  type Metrics<V> = map<Metric, V>

  datatype WeatherReport<V> = WeatherReport(
    id: int,
    oid: string,
    metrics: Metrics<V>,
    deviceType: string,
    timestamp: int)
  {
    /** The Option<f64> field of the source for metric k. */
    function Get(k: Metric): Option<V> {
      if k in metrics then Some(metrics[k]) else None
    }
  }

  /** The parsed POST body: seven optional metrics and a required device_type. */
  datatype Form<V> = Form(metrics: Metrics<V>, deviceType: string)

  const DefaultDeviceType := "other"

  /** A character of rand's Alphanumeric distribution: an ASCII letter or digit. */
  predicate IsAlphanumeric(c: char) {
    'a' <= c <= 'z' || 'A' <= c <= 'Z' || '0' <= c <= '9'
  }

  /** What WeatherReport::new draws for an oid: 15 alphanumeric characters. */
  predicate GeneratedOid(s: string) {
    |s| == 15 && forall i :: 0 <= i < |s| ==> IsAlphanumeric(s[i])
  }

  /**
   * WeatherReport::new, with the random oid and the clock reading passed in:
   * a report not yet stored (id 0), with no metrics and device type "other".
   */
  function New<V>(oid: string, timestamp: int): (r: WeatherReport<V>)
    ensures r.id == 0 && r.oid == oid && r.timestamp == timestamp
    ensures r.deviceType == DefaultDeviceType
    ensures forall k :: r.Get(k) == None
  {
    WeatherReport(0, oid, map[], DefaultDeviceType, timestamp)
  }

  /**
   * The report the POST handler builds: a new report whose metrics and
   * device type are then overwritten by the form's.
   */
  function FromForm<V>(form: Form<V>, oid: string, timestamp: int): (r: WeatherReport<V>)
    ensures r.(metrics := map[], deviceType := DefaultDeviceType) == New(oid, timestamp)
    ensures r.metrics == form.metrics && r.deviceType == form.deviceType
  {
    New(oid, timestamp).(metrics := form.metrics, deviceType := form.deviceType)
  }

  /**
   * The echoed report keeps new's id, oid and timestamp, and takes every
   * metric and the device type from the form, replacing the default "other".
   */
  lemma FromFormTakesInput<V>(form: Form<V>, oid: string, timestamp: int)
    requires GeneratedOid(oid)
    ensures var r := FromForm(form, oid, timestamp);
            && r.id == 0 && GeneratedOid(r.oid) && r.timestamp == timestamp
            && r.deviceType == form.deviceType
            && forall k :: r.Get(k) == (if k in form.metrics then Some(form.metrics[k]) else None)
  {
  }

  /** A generated oid holds no quote, so "oid = '<oid>'" cannot break out of its literal. */
  lemma GeneratedOidHasNoQuote(s: string)
    requires GeneratedOid(s)
    ensures '\'' !in s
  {
  }
}
