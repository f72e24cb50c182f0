/**
 * `ThresholdService::checkAndValidateTripLimits`: the daily limits a trip must pass
 * before it is recorded. A non-mobile request is refused first; then the wallet's
 * trips today, the city's counter and the trips of the whole system are checked
 * against the configured thresholds, in that order; on success the wallet counter
 * and, when there is a city, the city counter go up by one.
 *
 * Today's rows stand for the database: the thresholds by type, the wallets of
 * today's trips, and today's `daily_counts` rows as a map from (type, value) to the
 * count. The device, the city found for the IP and the user agent are inputs.
 */
module Threshold {
  import opened Wrappers
  import opened Abi

  /** The key of a `daily_counts` row of today: its `type` and its `value`. */
  datatype CounterKey = CounterKey(kind: string, value: string)

  /** A Telegram alert: its title and its message (the time line is left out). */
  datatype Alert = Alert(title: string, message: string)

  /** What the user agent parser reports. */
  datatype Device = Device(isMobile: bool, android: bool, ios: bool)

  /** `isMobileDevice`: a mobile device running AndroidOS or iOS. */
  predicate IsMobileDevice(d: Device) {
    d.isMobile && (d.android || d.ios)
  }

  /** A refused request: the alert sent and the message of the exception thrown. */
  datatype Rejection = Rejection(alert: Alert, error: string)

  const MobileError: string := "Request must originate from an Android or iOS mobile device"
  const UserError: string := "User trip threshold exceeded"
  const CityError: string := "City trip threshold exceeded"
  const SystemError: string := "System daily trip threshold exceeded"

  /** The count of a counter row; a missing row counts as the column default, 0. */
  function Count(counters: map<CounterKey, int>, key: CounterKey): int {
    if key in counters then counters[key] else 0
  }

  /** The city as PHP tests it: a truthy string. */
  predicate HasCity(city: Option<string>) {
    city.Some? && Truthy(city.value)
  }

  /** The wallet's trips today reach the user threshold, when there is one. */
  predicate UserExceeded(thresholds: map<string, int>, trips: seq<string>, wallet: string) {
    "user" in thresholds && multiset(trips)[wallet] >= thresholds["user"]
  }

  /**
   * The city's counter reaches the city threshold: only with a city, a city
   * threshold and a counter row for the city today.
   */
  predicate CityExceeded(thresholds: map<string, int>, counters: map<CounterKey, int>, city: Option<string>) {
    HasCity(city) && "city" in thresholds
    && CounterKey("city", city.value) in counters
    && counters[CounterKey("city", city.value)] >= thresholds["city"]
  }

  /** All trips today reach the system threshold, when there is one. */
  predicate SystemExceeded(thresholds: map<string, int>, trips: seq<string>) {
    "system" in thresholds && |trips| >= thresholds["system"]
  }

  /** The first check the request fails, with the alert and the exception it raises. */
  function FirstRejection(thresholds: map<string, int>, trips: seq<string>, counters: map<CounterKey, int>,
                          wallet: string, ip: string, userAgent: string, device: Device,
                          city: Option<string>): (r: Option<Rejection>)
    ensures r.None? <==>
      IsMobileDevice(device) && !UserExceeded(thresholds, trips, wallet)
      && !CityExceeded(thresholds, counters, city) && !SystemExceeded(thresholds, trips)
    ensures r.Some? && r.value.error == MobileError <==> !IsMobileDevice(device)
    ensures r.Some? && r.value.error == UserError <==>
      IsMobileDevice(device) && UserExceeded(thresholds, trips, wallet)
    ensures r.Some? && r.value.error == CityError <==>
      IsMobileDevice(device) && !UserExceeded(thresholds, trips, wallet) && CityExceeded(thresholds, counters, city)
    ensures r.Some? && r.value.error == SystemError <==>
      IsMobileDevice(device) && !UserExceeded(thresholds, trips, wallet)
      && !CityExceeded(thresholds, counters, city) && SystemExceeded(thresholds, trips)
  {
    if !IsMobileDevice(device) then
      Some(Rejection(Alert("Non-Mobile Request Detected",
                           "Request from IP " + ip + " rejected: Not from Android or iOS device. User-Agent: " + userAgent),
                     MobileError))
    else if UserExceeded(thresholds, trips, wallet) then
      Some(Rejection(Alert("User Threshold Exceeded",
                           "User ID " + wallet + " has reached trip threshold of " + Decimal(thresholds["user"])),
                     UserError))
    else if CityExceeded(thresholds, counters, city) then
      Some(Rejection(Alert("City Threshold Exceeded",
                           "City " + city.value + " has reached trip threshold of " + Decimal(thresholds["city"])),
                     CityError))
    else if SystemExceeded(thresholds, trips) then
      Some(Rejection(Alert("System Threshold Exceeded",
                           "System daily trip threshold of " + Decimal(thresholds["system"]) + " has been reached"),
                     SystemError))
    else None
  }

  /** `$city ?: null`. */
  function CityResult(city: Option<string>): (r: Option<string>)
    ensures r.Some? <==> HasCity(city)
    ensures r.Some? ==> r == city
  {
    if HasCity(city) then city else None
  }

  /** `DailyCount::incrementCount`: the row's count plus one; a new row starts from 0. */
  function Bump(counters: map<CounterKey, int>, key: CounterKey): map<CounterKey, int> {
    counters[key := Count(counters, key) + 1]
  }

  /** The counters after an accepted trip: the wallet's, then the city's when there is one. */
  function Incremented(counters: map<CounterKey, int>, wallet: string, city: Option<string>): map<CounterKey, int> {
    var bumped := Bump(counters, CounterKey("wallet", wallet));
    if HasCity(city) then Bump(bumped, CounterKey("city", city.value)) else bumped
  }

  /**
   * An accepted trip adds one to the wallet's counter, one to the city's counter
   * when there is a city, and changes no other counter.
   */
  lemma IncrementedCount(counters: map<CounterKey, int>, wallet: string, city: Option<string>, key: CounterKey)
    ensures Count(Incremented(counters, wallet, city), key) ==
      Count(counters, key)
      + (if key == CounterKey("wallet", wallet) then 1 else 0)
      + (if HasCity(city) && key == CounterKey("city", city.value) then 1 else 0)
  {
    var w := CounterKey("wallet", wallet);
    var bumped := Bump(counters, w);
    assert Count(bumped, key) == Count(counters, key) + (if key == w then 1 else 0);
  }

  /** The rows after an accepted trip: the old ones, the wallet's, and the city's when there is one. */
  lemma IncrementedKeys(counters: map<CounterKey, int>, wallet: string, city: Option<string>)
    ensures Incremented(counters, wallet, city).Keys ==
      counters.Keys + {CounterKey("wallet", wallet)}
      + (if HasCity(city) then {CounterKey("city", city.value)} else {})
  {
  }

  /**
   * The city limit as an invariant of today's counters: under a city threshold t,
   * no city counter passes t, or 1 when t is below 1 (a city without a row today
   * passes the check whatever the threshold).
   */
  predicate CitiesWithin(thresholds: map<string, int>, counters: map<CounterKey, int>) {
    "city" in thresholds ==>
      forall key | key in counters && key.kind == "city" ::
        counters[key] <= (if thresholds["city"] < 1 then 1 else thresholds["city"])
  }

  /** An accepted trip keeps every city counter within the city limit. */
  lemma AcceptedKeepsCitiesWithin(thresholds: map<string, int>, trips: seq<string>, counters: map<CounterKey, int>,
                                  wallet: string, ip: string, userAgent: string, device: Device, city: Option<string>)
    requires CitiesWithin(thresholds, counters)
    requires FirstRejection(thresholds, trips, counters, wallet, ip, userAgent, device, city).None?
    ensures CitiesWithin(thresholds, Incremented(counters, wallet, city))
  {
    var after := Incremented(counters, wallet, city);
    if "city" in thresholds {
      var limit := if thresholds["city"] < 1 then 1 else thresholds["city"];
      forall key | key in after && key.kind == "city"
        ensures after[key] <= limit
      {
        IncrementedCount(counters, wallet, city, key);
        IncrementedKeys(counters, wallet, city);
        if HasCity(city) && key == CounterKey("city", city.value) {
          assert !CityExceeded(thresholds, counters, city);
          assert Count(counters, key) + 1 <= limit;
        } else {
          assert key in counters;
        }
        assert after[key] == Count(after, key);
      }
    }
  }

  /**
   * The service over today's rows. `alerts` collects the Telegram messages sent:
   * they leave over HTTP, so a rollback does not take them back.
   */
  class ThresholdService {
    var thresholds: map<string, int>
    var tripsToday: seq<string>
    var counters: map<CounterKey, int>
    var alerts: seq<Alert>

    constructor (thresholds: map<string, int>, tripsToday: seq<string>, counters: map<CounterKey, int>)
      ensures this.thresholds == thresholds && this.tripsToday == tripsToday && this.counters == counters
      ensures alerts == []
    {
      this.thresholds := thresholds;
      this.tripsToday := tripsToday;
      this.counters := counters;
      alerts := [];
    }

    /** `DailyCount::incrementCount`. */
    method IncrementCount(key: CounterKey)
      modifies this`counters
      ensures counters == Bump(old(counters), key)
    {
      var count := if key in counters then counters[key] else 0;
      counters := counters[key := count + 1];
    }

    /** `sendTelegramAlert`. */
    method SendAlert(title: string, message: string)
      modifies this`alerts
      ensures alerts == old(alerts) + [Alert(title, message)]
    {
      alerts := alerts + [Alert(title, message)];
    }

    /**
     * `checkAndValidateTripLimits`: with no check failing, the counters are bumped
     * and the city (or null) returned; else the alert of the first failing check is
     * sent, its exception is thrown and the counters are as before.
     */
    method CheckAndValidateTripLimits(wallet: string, ip: string, userAgent: string, device: Device,
                                      city: Option<string>)
      returns (r: Result<Option<string>>)
      modifies this
      ensures thresholds == old(thresholds) && tripsToday == old(tripsToday)
      ensures var rejection :=
        FirstRejection(old(thresholds), old(tripsToday), old(counters), wallet, ip, userAgent, device, city);
        match rejection
        case Some(rej) => r == Err(rej.error) && alerts == old(alerts) + [rej.alert] && counters == old(counters)
        case None => r == Ok(CityResult(city)) && alerts == old(alerts)
                     && counters == Incremented(old(counters), wallet, city)
      ensures old(CitiesWithin(thresholds, counters)) ==> CitiesWithin(thresholds, counters)
    {
      ghost var before := counters;
      if !IsMobileDevice(device) {
        SendAlert("Non-Mobile Request Detected",
                  "Request from IP " + ip + " rejected: Not from Android or iOS device. User-Agent: " + userAgent);
        return Err(MobileError);
      }
      if "user" in thresholds {
        var userCount := multiset(tripsToday)[wallet];
        if userCount >= thresholds["user"] {
          SendAlert("User Threshold Exceeded",
                    "User ID " + wallet + " has reached trip threshold of " + Decimal(thresholds["user"]));
          return Err(UserError);
        }
      }
      if city.Some? && Truthy(city.value) {
        if "city" in thresholds {
          var key := CounterKey("city", city.value);
          if key in counters && counters[key] >= thresholds["city"] {
            SendAlert("City Threshold Exceeded",
                      "City " + city.value + " has reached trip threshold of " + Decimal(thresholds["city"]));
            return Err(CityError);
          }
        }
      }
      if "system" in thresholds {
        var systemCount := |tripsToday|;
        if systemCount >= thresholds["system"] {
          SendAlert("System Threshold Exceeded",
                    "System daily trip threshold of " + Decimal(thresholds["system"]) + " has been reached");
          return Err(SystemError);
        }
      }
      assert !UserExceeded(thresholds, tripsToday, wallet) && !CityExceeded(thresholds, counters, city);
      IncrementCount(CounterKey("wallet", wallet));
      if city.Some? && Truthy(city.value) {
        IncrementCount(CounterKey("city", city.value));
      }
      if CitiesWithin(thresholds, before) {
        AcceptedKeepsCitiesWithin(thresholds, tripsToday, before, wallet, ip, userAgent, device, city);
      }
      r := Ok(if city.Some? && Truthy(city.value) then city else None);
    }
  }
}
