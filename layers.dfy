/** The layer topology table: the per-network tables M_tab, N_tab and T_tab
    and the word width, passed around as one immutable configuration value.
    Layers are numbered from 1; table entry `layerIdx - 1` describes layer
    `layerIdx`. */
module LayerTable {

  /** The kind of a layer as recorded in T_tab. `Last` marks the network's
      output layer. */
  datatype LayerType = Rnn1 | Rnn2 | Dense | Last

  /** WORD_SIZE together with the three layer tables. */
  datatype Config = Config(wordSize: nat, mTab: seq<nat>, nTab: seq<nat>, tTab: seq<LayerType>)
  {
    /** The word width is positive and the three tables describe the same layers. */
    predicate Valid()
    {
      wordSize > 0 && |mTab| == |tTab| && |nTab| == |tTab|
    }

    /** N_LAYERS */
    function NLayers(): nat
    {
      |tTab|
    }

    /** The layer index assertion of the predicates below. */
    predicate HasLayer(layerIdx: nat)
    {
      Valid() && 1 <= layerIdx <= NLayers()
    }

    /** Input width of a layer (for a recurrent layer, without the hidden state). */
    function M(layerIdx: nat): nat
      requires HasLayer(layerIdx)
    {
      mTab[layerIdx - 1]
    }

    /** Output width of a layer (for a recurrent layer, also the hidden-state width). */
    function N(layerIdx: nat): nat
      requires HasLayer(layerIdx)
    {
      nTab[layerIdx - 1]
    }

    function Kind(layerIdx: nat): LayerType
      requires HasLayer(layerIdx)
    {
      tTab[layerIdx - 1]
    }
  }

  /** layer_is_rnn: the layer is one of the two recurrent kinds. */
  function LayerIsRnn(cfg: Config, layerIdx: nat): (r: bool)
    requires cfg.HasLayer(layerIdx)
    ensures r <==> cfg.Kind(layerIdx).Rnn1? || cfg.Kind(layerIdx).Rnn2?
    ensures r ==> cfg.Kind(layerIdx) != Dense && cfg.Kind(layerIdx) != Last
  {
    cfg.tTab[layerIdx - 1] == Rnn1 || cfg.tTab[layerIdx - 1] == Rnn2
  }

  /** layer_is_last: the layer is the network's output layer. */
  function LayerIsLast(cfg: Config, layerIdx: nat): (r: bool)
    requires cfg.HasLayer(layerIdx)
    ensures r <==> cfg.Kind(layerIdx).Last?
    ensures r ==> !LayerIsRnn(cfg, layerIdx)
  {
    cfg.tTab[layerIdx - 1] == Last
  }

  /** A layer that is neither recurrent nor last is a dense layer: the two
      predicates together classify every layer kind. */
  lemma ClassifyLayer(cfg: Config, layerIdx: nat)
    requires cfg.HasLayer(layerIdx)
    ensures !LayerIsRnn(cfg, layerIdx) && !LayerIsLast(cfg, layerIdx) <==> cfg.Kind(layerIdx) == Dense
  {
  }
}
