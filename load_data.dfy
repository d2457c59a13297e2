/** Record building of load_dataset in local_qna_chatbot/src/ingestion/load_data.py:
    each raw question/answer item becomes one {id, text} record. */
module Loader {
  import opened Outcomes
  import Text

  /** One raw item of the JSON dataset; a key that is absent is None. */
  datatype Item = Item(id: Option<int>, question: Option<string>, answer: Option<string>)

  /** A record with exactly the two keys "id" and "text". */
  datatype Record = Record(id: Option<int>, text: string)

  /** The text of an item's record: the question followed by a space, if there is one,
      then the answer, if there is one. */
  function RecordText(item: Item): string {
    (if item.question.Some? then item.question.value + " " else "")
    + (if item.answer.Some? then item.answer.value else "")
  }

  /** load_dataset after load_json: one record per item, in order. */
  method LoadDataset(items: seq<Item>) returns (records: seq<Record>)
    ensures |records| == |items|
    ensures forall i :: 0 <= i < |items| ==> records[i] == Record(items[i].id, RecordText(items[i]))
  {
    records := [];
    for j := 0 to |items|
      invariant |records| == j
      invariant forall i :: 0 <= i < j ==> records[i] == Record(items[i].id, RecordText(items[i]))
    {
      var item := items[j];
      var text := "";
      if item.question.Some? {
        text := text + item.question.value + " ";
      }
      if item.answer.Some? {
        text := text + item.answer.value;
      }
      records := records + [Record(item.id, text)];
    }
  }

  /** The words of a record are the question's words followed by the answer's words:
      the space added after the question never glues a question word to an answer word. */
  lemma RecordWords(item: Item)
    ensures Text.Split(RecordText(item))
         == Text.Split(item.question.GetOr("")) + Text.Split(item.answer.GetOr(""))
  {
    var q, a := item.question.GetOr(""), item.answer.GetOr("");
    if item.question.Some? {
      if item.answer.Some? {
        assert RecordText(item) == q + [' '] + a;
      } else {
        assert RecordText(item) == q + [' '] + "";
      }
      Text.SplitAtSpace(q, ' ', if item.answer.Some? then a else "");
    } else {
      assert RecordText(item) == a;
      assert Text.Split("") == [];
    }
  }
}
