/** The greeting shown on the display: the hour picks a period of the day,
    and the period picks one message from a fixed table. */
module GreetTime {
  import opened Wrappers

  /** The period of the day an hour falls in. */
  function TimePeriod(hour: int): (p: string)
    ensures p == "morning" <==> 5 <= hour < 11
    ensures p == "noon" <==> 11 <= hour < 14
    ensures p == "afternoon" <==> 14 <= hour < 18
    ensures p == "evening" <==> hour < 5 || 18 <= hour
  {
    if 5 <= hour < 11 then "morning"
    else if 11 <= hour < 14 then "noon"
    else if 14 <= hour < 18 then "afternoon"
    else "evening"
  }

  /** The greeting table: exactly the four periods as keys, five messages
      each, so no list is empty. */
  function Greetings(): (table: map<string, seq<string>>)
    ensures table.Keys == {"morning", "noon", "afternoon", "evening"}
    ensures forall p :: p in table ==> |table[p]| == 5
  {
    var table := map[
      "morning" := [
        "早上好！今天也要元气满满哦～",
        "Good morning! 祝你有个愉快的一天！",
        "早安，世界正在等你发光",
        "新的一天，新的开始，加油！",
        "清晨的阳光真美，愿你今天也很顺利～"
      ],
      "noon" := [
        "中午好！吃饭别太快，记得休息一下",
        "午安～补充能量继续奋斗！",
        "中午啦！吃好饭、睡好觉才有力气干活",
        "午饭时间到～今天吃点好的吧！",
        "中午好呀～工作学习都别太累喔～"
      ],
      "afternoon" := [
        "下午好～注意别犯困",
        "下午啦，打起精神继续冲刺吧！",
        "午后阳光真舒服，记得伸个懒腰～",
        "希望你的下午像阳光一样温暖",
        "下午好！别忘了补水和休息一下～"
      ],
      "evening" := [
        "晚上好～今天辛苦啦",
        "Good evening! 是时候放松一下了～",
        "夜色正好，放慢脚步享受片刻安宁～",
        "晚上好，来杯热茶犒劳一下自己吧",
        "辛苦一天啦，记得早点休息哦"
      ]
    ];
    assert "morning" in table && "noon" in table;
    assert "afternoon" in table && "evening" in table;
    table
  }

  /** Looking up a period that is not in the table fails, as does choosing
      from an empty list. */
  datatype GreetError = UnknownPeriod | NoChoices

  /** A uniform choice from a list, with the random draw as a parameter. */
  function Choose(options: seq<string>, pick: nat): (r: Result<string, GreetError>)
    ensures r.Ok? <==> options != []
    ensures r.Ok? ==> r.value in options
  {
    if options == [] then Err(NoChoices) else Ok(options[pick % |options|])
  }

  /** One greeting for the period; `pick` stands for the random draw. */
  function RandomGreeting(period: string, pick: nat): (r: Result<string, GreetError>)
    ensures r == Err(UnknownPeriod) <==> period !in Greetings()
    ensures r.Ok? ==> period in Greetings() && r.value in Greetings()[period]
  {
    if period !in Greetings() then Err(UnknownPeriod) else Choose(Greetings()[period], pick)
  }

  /** Every hour yields a period the table knows, so a greeting is always
      found and comes from that period's list. */
  lemma GreetingAlwaysFound(hour: int, pick: nat)
    ensures TimePeriod(hour) in Greetings()
    ensures RandomGreeting(TimePeriod(hour), pick).Ok?
    ensures RandomGreeting(TimePeriod(hour), pick).value in Greetings()[TimePeriod(hour)]
  {
  }

  /** Every message of a period can be drawn. */
  lemma EveryGreetingReachable(period: string, g: string)
    requires period in Greetings() && g in Greetings()[period]
    ensures exists pick: nat :: RandomGreeting(period, pick) == Ok(g)
  {
    var options := Greetings()[period];
    var k :| 0 <= k < |options| && options[k] == g;
    assert k % |options| == k;
    assert RandomGreeting(period, k) == Ok(g);
  }

  /** Over a day the period changes exactly at 5, 11, 14 and 18 o'clock, and
      the evening runs past midnight into the small hours. */
  lemma PeriodChanges(hour: int)
    requires 0 <= hour < 23
    ensures TimePeriod(hour) != TimePeriod(hour + 1) <==> hour + 1 in {5, 11, 14, 18}
    ensures TimePeriod(23) == TimePeriod(0)
  {
  }
}
